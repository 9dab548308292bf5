/**
  The path handling and directory traversal of swimstats/webdav.py. The HTTP side
  (PROPFIND requests and their XML) is not modelled: a listing is a function from a
  directory path to the entries the server returns for it, and percent-encoding is a
  given function on path segments.
 */
module Webdav {
  import opened Wrappers
  import opened Text
  import opened Ordering

  /** `DavEntry`: one response element of a PROPFIND listing. */
  datatype DavEntry = DavEntry(
    href: string, path: string, isDir: bool, contentType: Option<string>,
    size: Option<nat>, lastModified: Option<string>, etag: Option<string>)

  // ---------------------------------------------------------------------------
  // safe_join
  // ---------------------------------------------------------------------------

  /** Each segment passed through the encoder (`quote(unquote(seg))`). */
  function EncodeAll(segs: seq<string>, encode: string -> string): (r: seq<string>)
    ensures |r| == |segs|
    ensures forall i :: 0 <= i < |segs| ==> r[i] == encode(segs[i])
  {
    seq(|segs|, i requires 0 <= i < |segs| => encode(segs[i]))
  }

  /** `safe_join(base, path)`: the base without trailing slashes, one slash, then the encoded segments of the path. */
  function SafeJoin(base: string, path: string, encode: string -> string): (r: string)
    ensures var b := RStripChar(base, '/'); |b| < |r| && r[..|b| + 1] == b + "/"
    ensures StripChar(path, '/') == [] ==> r == RStripChar(base, '/') + "/"
  {
    var p := StripChar(path, '/');
    var b := RStripChar(base, '/') + "/";
    if p == [] then b else b + Join("/", EncodeAll(Split(p, '/'), encode))
  }

  /** When no segment needs encoding, `safe_join` is the plain concatenation of the slash-stripped parts. */
  lemma SafeJoinPlain(base: string, path: string, encode: string -> string)
    requires forall seg :: seg in Split(StripChar(path, '/'), '/') ==> encode(seg) == seg
    ensures SafeJoin(base, path, encode) == RStripChar(base, '/') + "/" + StripChar(path, '/')
  {
    var p := StripChar(path, '/');
    if p != [] {
      var segs := Split(p, '/');
      assert EncodeAll(segs, encode) == segs;
      JoinSplit(p, '/');
      assert "/" == ['/'];
    }
  }

  /**
    When no encoded segment contains a slash, what follows the base and its slash splits
    back at the slashes into the encoded segments of the path, one per segment and in order.
   */
  lemma SafeJoinSegments(base: string, path: string, encode: string -> string)
    requires StripChar(path, '/') != []
    requires forall seg :: seg in Split(StripChar(path, '/'), '/') ==> '/' !in encode(seg)
    ensures var b := RStripChar(base, '/'); var r := SafeJoin(base, path, encode);
      Split(r[|b| + 1..], '/') == EncodeAll(Split(StripChar(path, '/'), '/'), encode)
  {
    var b := RStripChar(base, '/');
    var segs := Split(StripChar(path, '/'), '/');
    var enc := EncodeAll(segs, encode);
    assert "/" == ['/'];
    assert forall k :: 0 <= k < |enc| ==> '/' !in enc[k] by {
      forall k | 0 <= k < |enc| ensures '/' !in enc[k] {
        assert segs[k] in segs;
      }
    }
    SplitJoin(enc, '/');
    assert SafeJoin(base, path, encode)[|b| + 1..] == Join("/", enc);
  }

  // ---------------------------------------------------------------------------
  // _href_to_rel
  // ---------------------------------------------------------------------------

  /** The marker of the public-files WebDAV endpoint for a share token. */
  function PublicFilesMarker(token: string): string { "/public-files/" + token + "/" }

  /** The marker of the public.php WebDAV endpoint. */
  const PublicPhpMarker: string := "/public.php/webdav/"

  /** `u.split(m, 1)[1]`: the text after the first occurrence of `m`. */
  function After(u: string, m: string): (r: string)
    requires Contains(u, m)
    ensures exists k: nat :: OccursAt(u, m, k) && (forall j :: 0 <= j < k ==> !OccursAt(u, m, j)) && r == u[k + |m|..]
  {
    var k := FindFrom(u, m, 0).value;
    u[k + |m|..]
  }

  /** `_href_to_rel`: the path after the first endpoint marker found, without trailing slashes. */
  function HrefToRel(href: string, token: string, unquote: string -> string): (r: string)
    ensures r == [] || r[|r| - 1] != '/'
    ensures var u := unquote(href);
      if Contains(u, PublicFilesMarker(token)) then r == RStripChar(After(u, PublicFilesMarker(token)), '/')
      else if Contains(u, PublicPhpMarker) then r == RStripChar(After(u, PublicPhpMarker), '/')
      else r == StripChar(u, '/')
  {
    var u := unquote(href);
    var m1 := PublicFilesMarker(token);
    if Contains(u, m1) then RStripChar(After(u, m1), '/')
    else if Contains(u, PublicPhpMarker) then RStripChar(After(u, PublicPhpMarker), '/')
    else RStripChar(LStripChar(u, '/'), '/')
  }

  /** `rstrip("/")` removes exactly a trailing run of slashes. */
  lemma {:induction false} RStripSlashes(rel: string, tail: string)
    requires rel == [] || rel[|rel| - 1] != '/'
    requires forall i :: 0 <= i < |tail| ==> tail[i] == '/'
    ensures RStripChar(rel + tail, '/') == rel
    decreases |tail|
  {
    if tail == [] {
      assert rel + tail == rel;
    } else {
      var init := tail[..|tail| - 1];
      assert (rel + tail)[..|rel + tail| - 1] == rel + init;
      RStripSlashes(rel, init);
    }
  }

  /** The public-files href `/remote.php/dav/public-files/<token>/<rel>` (with any trailing slashes). */
  function PublicFilesHref(token: string, rel: string, tail: string): string {
    "/remote.php/dav" + PublicFilesMarker(token) + rel + tail
  }

  /** `_href_to_rel` recovers the relative path of a public-files href. */
  lemma HrefToRelOfPublicFiles(token: string, rel: string, tail: string, unquote: string -> string)
    requires rel == [] || rel[|rel| - 1] != '/'
    requires forall i :: 0 <= i < |tail| ==> tail[i] == '/'
    requires unquote(PublicFilesHref(token, rel, tail)) == PublicFilesHref(token, rel, tail)
    ensures HrefToRel(PublicFilesHref(token, rel, tail), token, unquote) == rel
  {
    var u := PublicFilesHref(token, rel, tail);
    var m := PublicFilesMarker(token);
    var pre := "/remote.php/dav";
    assert u == pre + m + (rel + tail);
    assert OccursAt(u, m, 15) by {
      assert u[15..15 + |m|] == m;
    }
    forall k | 0 <= k < 15 ensures !OccursAt(u, m, k) {
      assert u[k] != '/' || u[k + 1] != 'p';
      if k + |m| <= |u| {
        assert u[k..k + |m|][0] == u[k] && u[k..k + |m|][1] == u[k + 1];
      }
    }
    assert FindFrom(u, m, 0) == Some(15);
    assert After(u, m) == rel + tail by {
      assert u[15 + |m|..] == rel + tail;
    }
    RStripSlashes(rel, tail);
  }

  // ---------------------------------------------------------------------------
  // walk_pdfs
  // ---------------------------------------------------------------------------

  /**
    The PDF test of `walk_pdfs`: a content type containing "pdf" or a path ending in
    ".pdf", ignoring case.
   */
  predicate IsPdfEntry(e: DavEntry) {
    var p := Lower(e.path);
    (e.contentType.Some? && Contains(Lower(e.contentType.value), "pdf"))
    || (|p| >= 4 && p[|p| - 4..] == ".pdf")
  }

  /** The listing's entry for the directory itself, which `walk_pdfs` skips. */
  predicate IsSelf(current: string, e: DavEntry) {
    StripChar(e.path, '/') == StripChar(current, '/')
  }

  /** The entries `walk_pdfs` yields while reading the listing `es` of `current`, in order. */
  function PdfsIn(current: string, es: seq<DavEntry>): seq<DavEntry> {
    if es == [] then []
    else
      var e := es[|es| - 1];
      PdfsIn(current, es[..|es| - 1]) + (if !IsSelf(current, e) && !e.isDir && IsPdfEntry(e) then [e] else [])
  }

  /** `PdfsIn` keeps exactly the PDF entries other than the directory itself. */
  lemma {:induction false} PdfsInSpec(current: string, es: seq<DavEntry>)
    ensures forall e :: e in PdfsIn(current, es) <==> e in es && !IsSelf(current, e) && !e.isDir && IsPdfEntry(e)
  {
    if es != [] {
      var init := es[..|es| - 1];
      PdfsInSpec(current, init);
      assert forall x :: x in es <==> x in init || x == es[|es| - 1];
    }
  }

  /** The directory paths `walk_pdfs` pushes while reading the listing `es` of `current`, in order. */
  function SubdirsIn(current: string, es: seq<DavEntry>): seq<string> {
    if es == [] then []
    else
      var e := es[|es| - 1];
      SubdirsIn(current, es[..|es| - 1]) + (if !IsSelf(current, e) && e.isDir then [e.path] else [])
  }

  /** `SubdirsIn` keeps exactly the paths of the directory entries other than the directory itself. */
  lemma {:induction false} SubdirsInSpec(current: string, es: seq<DavEntry>)
    ensures forall p :: p in SubdirsIn(current, es) <==> exists e :: e in es && !IsSelf(current, e) && e.isDir && e.path == p
  {
    if es != [] {
      var init := es[..|es| - 1];
      SubdirsInSpec(current, init);
      assert forall x :: x in es <==> x in init || x == es[|es| - 1];
    }
  }

  /** `dirs[k]` is a subdirectory named by the listing of an earlier element of `dirs`. */
  ghost predicate FoundBefore(dirs: seq<string>, k: int, list: string -> Option<seq<DavEntry>>)
    requires 0 <= k < |dirs|
  {
    exists i :: 0 <= i < k && dirs[k] in SubdirsIn(dirs[i], Listing(list, dirs[i]))
  }

  /** `x` is a subdirectory named by the listing of one of `dirs`. */
  ghost predicate FoundIn(x: string, dirs: seq<string>, list: string -> Option<seq<DavEntry>>) {
    exists i :: 0 <= i < |dirs| && x in SubdirsIn(dirs[i], Listing(list, dirs[i]))
  }

  /** Everything yielded while reading the listings of `dirs`, one after the other. */
  function PdfsOfAll(dirs: seq<string>, list: string -> Option<seq<DavEntry>>): seq<DavEntry> {
    if dirs == [] then []
    else
      var d := dirs[|dirs| - 1];
      PdfsOfAll(dirs[..|dirs| - 1], list) + PdfsIn(d, Listing(list, d))
  }

  /** Every entry `PdfsOfAll` gives is a PDF entry of one of the listings. */
  lemma {:induction false} PdfsOfAllAreListed(dirs: seq<string>, list: string -> Option<seq<DavEntry>>)
    ensures forall e :: e in PdfsOfAll(dirs, list) ==>
      !e.isDir && IsPdfEntry(e) && exists k :: 0 <= k < |dirs| && e in Listing(list, dirs[k]) && !IsSelf(dirs[k], e)
  {
    if dirs != [] {
      var n := |dirs| - 1;
      PdfsOfAllAreListed(dirs[..n], list);
      forall e | e in PdfsOfAll(dirs, list)
        ensures !e.isDir && IsPdfEntry(e) && exists k :: 0 <= k < |dirs| && e in Listing(list, dirs[k]) && !IsSelf(dirs[k], e)
      {
        if e in PdfsOfAll(dirs[..n], list) {
          var k :| 0 <= k < n && e in Listing(list, dirs[..n][k]) && !IsSelf(dirs[..n][k], e);
          assert dirs[..n][k] == dirs[k];
        } else {
          PdfsInSpec(dirs[n], Listing(list, dirs[n]));
        }
      }
    }
  }

  /** Taking an element of `u` into `seen` shrinks what is left of `u`. */
  lemma LeftShrinks(u: set<string>, seen: set<string>, x: string)
    requires x in u && x !in seen
    ensures |u - (seen + {x})| < |u - seen|
  {
    assert u - seen == (u - (seen + {x})) + {x};
  }

  /** The entries of the listing of `d`; a failed PROPFIND (`None`) reads as no entries. */
  function Listing(list: string -> Option<seq<DavEntry>>, d: string): seq<DavEntry> {
    list(d).GetOr([])
  }

  /** Every directory path a listing returns lies in `universe`. */
  ghost predicate DirsIn(list: string -> Option<seq<DavEntry>>, universe: set<string>) {
    forall p, e :: e in Listing(list, p) && e.isDir ==> e.path in universe
  }

  /**
    What `walk_pdfs(start)` produces. `listed` is the order in which the directories were
    listed: the slash-stripped start first, each path once, each later one named by the
    listing of an earlier one. Every listing but the last succeeded. The walk is `None`
    exactly when the last listing failed too (the exception of `propfind`); otherwise every
    directory a listing names is listed, and the walk holds the PDF entries of the
    listings in that order.
   */
  ghost predicate IsWalk(start: string, list: string -> Option<seq<DavEntry>>, listed: seq<string>,
                         walk: Option<seq<DavEntry>>) {
    |listed| >= 1 && listed[0] == StripChar(start, '/')
    && Distinct(listed)
    && (forall k :: 0 < k < |listed| ==> FoundBefore(listed, k, list))
    && ListingsOk(list, listed[..|listed| - 1])
    && (walk.Some? <==> list(listed[|listed| - 1]).Some?)
    && (walk.Some? ==> forall p :: FoundIn(p, listed, list) ==> p in listed)
    && (walk.Some? ==> walk.value == PdfsOfAll(listed, list))
  }

  /**
    `walk_pdfs` run to the end: a depth-first traversal that lists each directory path
    once (the `seen` set) and yields the PDF entries of each listing in order, ending
    early when a listing fails. The traversal ends because every directory path a
    listing returns lies in the finite set `universe`.
   */
  method WalkPdfs(startPath: string, list: string -> Option<seq<DavEntry>>, ghost universe: set<string>)
    returns (pdfs: Option<seq<DavEntry>>, ghost listed: seq<string>)
    requires StripChar(startPath, '/') in universe
    requires DirsIn(list, universe)
    ensures IsWalk(startPath, list, listed, pdfs)
  {
    var start := StripChar(startPath, '/');
    var stack := [start];
    var seen: set<string> := {};
    var found := [];
    listed := [];
    while stack != []
      invariant WalkInv(start, universe, list, seen, stack, listed, found)
      invariant ListingsOk(list, listed)
      decreases |universe - seen|, |stack|
    {
      var current := stack[|stack| - 1];
      ghost var stack0 := stack;
      stack := stack[..|stack| - 1];
      if current in seen {
        WalkSkip(start, universe, list, seen, stack0, listed, found);
        continue;
      }
      LeftShrinks(universe, seen, current);
      var listing := list(current);
      if listing.None? {
        WalkFail(startPath, universe, list, seen, stack0, listed, found);
        listed := listed + [current];
        return None, listed;
      }
      WalkVisit(start, universe, list, seen, stack0, listed, found);
      ListingsOkSnoc(list, listed, current);
      var subdirs, more := ReadListing(current, listing.value);
      stack := stack + subdirs;
      found := found + more;
      seen := seen + {current};
      listed := listed + [current];
    }
    WalkDone(startPath, universe, list, seen, listed, found);
    pdfs := Some(found);
  }

  /** Every directory of `dirs` was listed successfully. */
  ghost predicate ListingsOk(list: string -> Option<seq<DavEntry>>, dirs: seq<string>) {
    forall k :: 0 <= k < |dirs| ==> list(dirs[k]).Some?
  }

  lemma ListingsOkSnoc(list: string -> Option<seq<DavEntry>>, dirs: seq<string>, d: string)
    requires ListingsOk(list, dirs) && list(d).Some?
    ensures ListingsOk(list, dirs + [d])
  {
  }

  /** A directory whose listing fails ends the walk: it is listed last, after the order so far. */
  lemma WalkFail(startPath: string, universe: set<string>, list: string -> Option<seq<DavEntry>>,
                 seen: set<string>, stack: seq<string>, listed: seq<string>, pdfs: seq<DavEntry>)
    requires WalkInv(StripChar(startPath, '/'), universe, list, seen, stack, listed, pdfs)
    requires ListingsOk(list, listed)
    requires stack != [] && stack[|stack| - 1] !in seen && list(stack[|stack| - 1]).None?
    ensures IsWalk(startPath, list, listed + [stack[|stack| - 1]], None)
  {
    var start := StripChar(startPath, '/');
    var listed' := listed + [stack[|stack| - 1]];
    VisitBasics(start, universe, list, seen, stack, listed, pdfs);
    VisitOrder(listed, stack[|stack| - 1], list);
    assert listed'[..|listed'| - 1] == listed;
  }

  /** The loop of `walk_pdfs` over one listing: the directories it pushes and the PDF entries it yields. */
  method ReadListing(current: string, entries: seq<DavEntry>) returns (subdirs: seq<string>, found: seq<DavEntry>)
    ensures subdirs == SubdirsIn(current, entries)
    ensures found == PdfsIn(current, entries)
  {
    subdirs, found := [], [];
    for j := 0 to |entries|
      invariant subdirs == SubdirsIn(current, entries[..j])
      invariant found == PdfsIn(current, entries[..j])
    {
      var e := entries[j];
      ListingSnoc(current, entries, j);
      if IsSelf(current, e) {
      } else if e.isDir {
        subdirs := subdirs + [e.path];
      } else if IsPdfEntry(e) {
        found := found + [e];
      }
    }
    assert entries[..|entries|] == entries;
  }

  lemma ListingSnoc(current: string, entries: seq<DavEntry>, j: nat)
    requires j < |entries|
    ensures var e := entries[j];
      && SubdirsIn(current, entries[..j + 1]) == SubdirsIn(current, entries[..j]) + (if !IsSelf(current, e) && e.isDir then [e.path] else [])
      && PdfsIn(current, entries[..j + 1]) == PdfsIn(current, entries[..j]) + (if !IsSelf(current, e) && !e.isDir && IsPdfEntry(e) then [e] else [])
  {
    assert entries[..j + 1][..j] == entries[..j];
  }

  /** No two elements of `s` are equal. */
  predicate Distinct(s: seq<string>) {
    forall i, j :: 0 <= i < j < |s| ==> s[i] != s[j]
  }

  /** The loop invariant of `walk_pdfs`. */
  ghost predicate WalkInv(start: string, universe: set<string>, list: string -> Option<seq<DavEntry>>,
                          seen: set<string>, stack: seq<string>, listed: seq<string>, pdfs: seq<DavEntry>)
  {
    seen <= universe
    && (forall x :: x in stack ==> x in universe)
    && (forall x :: x in seen <==> x in listed)
    && Distinct(listed)
    && (listed == [] ==> stack == [start])
    && (listed != [] ==> listed[0] == start)
    && (forall x :: x in stack ==> x == start || FoundIn(x, listed, list))
    && (forall k :: 0 < k < |listed| ==> FoundBefore(listed, k, list))
    && (forall p :: FoundIn(p, listed, list) ==> p in listed || p in stack)
    && pdfs == PdfsOfAll(listed, list)
  }

  /** Popping a directory that was listed before keeps the invariant. */
  lemma WalkSkip(start: string, universe: set<string>, list: string -> Option<seq<DavEntry>>,
                 seen: set<string>, stack: seq<string>, listed: seq<string>, pdfs: seq<DavEntry>)
    requires WalkInv(start, universe, list, seen, stack, listed, pdfs)
    requires stack != [] && stack[|stack| - 1] in seen
    ensures WalkInv(start, universe, list, seen, stack[..|stack| - 1], listed, pdfs)
  {
    var rest := stack[..|stack| - 1];
    assert forall x :: x in stack <==> x in rest || x == stack[|stack| - 1];
  }

  /** Listing a new directory, pushing its subdirectories and yielding its PDFs keeps the invariant. */
  lemma WalkVisit(start: string, universe: set<string>, list: string -> Option<seq<DavEntry>>,
                  seen: set<string>, stack: seq<string>, listed: seq<string>, pdfs: seq<DavEntry>)
    requires WalkInv(start, universe, list, seen, stack, listed, pdfs)
    requires forall p, e :: e in Listing(list, p) && e.isDir ==> e.path in universe
    requires stack != [] && stack[|stack| - 1] !in seen
    ensures var current := stack[|stack| - 1];
      WalkInv(start, universe, list, seen + {current},
              stack[..|stack| - 1] + SubdirsIn(current, Listing(list, current)), listed + [current],
              pdfs + PdfsIn(current, Listing(list, current)))
  {
    var current := stack[|stack| - 1];
    var rest := stack[..|stack| - 1];
    VisitBasics(start, universe, list, seen, stack, listed, pdfs);
    VisitOrder(listed, current, list);
    VisitStack(start, universe, list, listed, rest, current);
    PdfsOfAllSnoc(listed, current, list);
  }

  /** The membership facts of the invariant after listing the top of the stack. */
  lemma VisitBasics(start: string, universe: set<string>, list: string -> Option<seq<DavEntry>>,
                    seen: set<string>, stack: seq<string>, listed: seq<string>, pdfs: seq<DavEntry>)
    requires WalkInv(start, universe, list, seen, stack, listed, pdfs)
    requires stack != [] && stack[|stack| - 1] !in seen
    ensures var current := stack[|stack| - 1];
      && seen + {current} <= universe
      && (forall x :: x in seen + {current} <==> x in listed + [current])
      && (listed + [current])[0] == start
      && current !in listed
      && (listed == [] || FoundIn(current, listed, list))
      && (forall x :: x in stack[..|stack| - 1] ==> x in universe)
      && (forall x :: x in stack[..|stack| - 1] ==> x == start || FoundIn(x, listed, list))
      && (forall p :: FoundIn(p, listed, list) ==> p in listed || p in stack[..|stack| - 1] || p == current)
  {
    var current := stack[|stack| - 1];
    assert forall x :: x in stack <==> x in stack[..|stack| - 1] || x == current;
  }

  lemma PdfsOfAllSnoc(listed: seq<string>, current: string, list: string -> Option<seq<DavEntry>>)
    ensures PdfsOfAll(listed + [current], list) == PdfsOfAll(listed, list) + PdfsIn(current, Listing(list, current))
  {
    assert (listed + [current])[..|listed|] == listed;
  }

  /** The order facts of the invariant after listing `current`. */
  lemma VisitOrder(listed: seq<string>, current: string, list: string -> Option<seq<DavEntry>>)
    requires Distinct(listed) && current !in listed
    requires forall k :: 0 < k < |listed| ==> FoundBefore(listed, k, list)
    requires listed == [] || FoundIn(current, listed, list)
    ensures Distinct(listed + [current])
    ensures forall k :: 0 < k < |listed| + 1 ==> FoundBefore(listed + [current], k, list)
  {
    DistinctSnoc(listed, current);
    var listed' := listed + [current];
    forall k | 0 < k < |listed'| ensures FoundBefore(listed', k, list) {
      FoundBeforeSnoc(listed, current, k, list);
    }
  }

  lemma DistinctSnoc(listed: seq<string>, current: string)
    requires Distinct(listed) && current !in listed
    ensures Distinct(listed + [current])
  {
  }

  lemma FoundBeforeSnoc(listed: seq<string>, current: string, k: int, list: string -> Option<seq<DavEntry>>)
    requires 0 < k <= |listed|
    requires k < |listed| ==> FoundBefore(listed, k, list)
    requires k == |listed| ==> FoundIn(current, listed, list)
    ensures FoundBefore(listed + [current], k, list)
  {
    var listed' := listed + [current];
    if k < |listed| {
      var i :| 0 <= i < k && listed[k] in SubdirsIn(listed[i], Listing(list, listed[i]));
      assert listed'[i] == listed[i] && listed'[k] == listed[k];
    } else {
      var i :| 0 <= i < |listed| && current in SubdirsIn(listed[i], Listing(list, listed[i]));
      assert listed'[i] == listed[i];
    }
  }

  /** The stack facts of the invariant after listing `current` and pushing its subdirectories. */
  lemma VisitStack(start: string, universe: set<string>, list: string -> Option<seq<DavEntry>>,
                   listed: seq<string>, rest: seq<string>, current: string)
    requires forall p, e :: e in Listing(list, p) && e.isDir ==> e.path in universe
    requires forall x :: x in rest ==> x in universe
    requires forall x :: x in rest ==> x == start || FoundIn(x, listed, list)
    requires forall p :: FoundIn(p, listed, list) ==> p in listed || p in rest || p == current
    ensures var stack' := rest + SubdirsIn(current, Listing(list, current));
      && (forall x :: x in stack' ==> x in universe)
      && (forall x :: x in stack' ==> x == start || FoundIn(x, listed + [current], list))
      && (forall p :: FoundIn(p, listed + [current], list) ==> p in listed + [current] || p in stack')
  {
    var subs := SubdirsIn(current, Listing(list, current));
    var stack' := rest + subs;
    SubdirsInSpec(current, Listing(list, current));
    WalkStep(listed, current, list, rest, stack', start);
    forall p | FoundIn(p, listed + [current], list) ensures p in listed + [current] || p in stack' {
      FoundInSnoc(p, listed, current, list);
    }
  }

  /** With the stack empty, the invariant gives the traversal's promises. */
  lemma WalkDone(startPath: string, universe: set<string>, list: string -> Option<seq<DavEntry>>,
                 seen: set<string>, listed: seq<string>, pdfs: seq<DavEntry>)
    requires WalkInv(StripChar(startPath, '/'), universe, list, seen, [], listed, pdfs)
    requires ListingsOk(list, listed)
    ensures IsWalk(startPath, list, listed, Some(pdfs))
  {
    assert listed[..|listed| - 1] + [listed[|listed| - 1]] == listed;
  }

  /** Listing one more directory keeps what was found before. */
  lemma FoundInSnoc(x: string, before: seq<string>, current: string, list: string -> Option<seq<DavEntry>>)
    ensures FoundIn(x, before + [current], list) <==> FoundIn(x, before, list) || x in SubdirsIn(current, Listing(list, current))
  {
    var dirs := before + [current];
    if FoundIn(x, before, list) {
      var i :| 0 <= i < |before| && x in SubdirsIn(before[i], Listing(list, before[i]));
      assert dirs[i] == before[i];
    }
    if x in SubdirsIn(current, Listing(list, current)) {
      assert dirs[|before|] == current;
    }
    if FoundIn(x, dirs, list) {
      var i :| 0 <= i < |dirs| && x in SubdirsIn(dirs[i], Listing(list, dirs[i]));
      if i < |before| {
        assert dirs[i] == before[i];
      }
    }
  }

  /** The traversal facts after `current` has been listed and its subdirectories pushed. */
  lemma WalkStep(before: seq<string>, current: string, list: string -> Option<seq<DavEntry>>,
                 pushed: seq<string>, stack: seq<string>, start: string)
    requires stack == pushed + SubdirsIn(current, Listing(list, current))
    requires forall x :: x in pushed ==> x == start || FoundIn(x, before, list)
    ensures forall x :: x in stack ==> x == start || FoundIn(x, before + [current], list)
  {
    forall x | x in stack
      ensures x == start || FoundIn(x, before + [current], list)
    {
      FoundInSnoc(x, before, current, list);
    }
  }

  // ---------------------------------------------------------------------------
  // list_directories and list_directories_recursive
  // ---------------------------------------------------------------------------

  /** The slash-stripped paths of the directory entries of `es` other than `base` itself, in order. */
  function DirPaths(base: string, es: seq<DavEntry>): (r: seq<string>)
    ensures forall p :: p in r <==> p in DirNames(base, es)
  {
    if es == [] then []
    else
      var e := es[|es| - 1];
      var init := es[..|es| - 1];
      var r := DirPaths(base, init) + (if StripChar(e.path, '/') != base && e.isDir then [StripChar(e.path, '/')] else []);
      assert forall x :: x in es <==> x in init || x == e;
      r
  }

  /** The subdirectories of `base` named by a listing: slash-stripped, without `base` itself. */
  ghost function DirNames(base: string, es: seq<DavEntry>): set<string> {
    set e | e in es && e.isDir && StripChar(e.path, '/') != base :: StripChar(e.path, '/')
  }

  /**
    `list_directories(base_path)`: the sorted, de-duplicated subdirectories of the
    slash-stripped base path, or `None` when its listing fails (the exception).
   */
  method ListDirectories(basePath: string, list: string -> Option<seq<DavEntry>>) returns (dirs: Option<seq<string>>)
    ensures dirs.Some? <==> list(StripChar(basePath, '/')).Some?
    ensures dirs.Some? ==> StrictlySorted(dirs.value)
    ensures dirs.Some? ==> forall p :: p in dirs.value <==> p in DirNames(StripChar(basePath, '/'), list(StripChar(basePath, '/')).value)
  {
    var base := StripChar(basePath, '/');
    var listing := list(base);
    if listing.None? {
      return None;
    }
    var entries := listing.value;
    var found: seq<string> := [];
    for j := 0 to |entries|
      invariant found == DirPaths(base, entries[..j])
    {
      var e := entries[j];
      assert entries[..j + 1][..j] == entries[..j];
      if StripChar(e.path, '/') == base {
        continue;
      }
      if e.isDir {
        found := found + [StripChar(e.path, '/')];
      }
    }
    assert entries[..|entries|] == entries;
    dirs := Some(SortedSet(found));
  }

  /** The subdirectories a successful listing of `p` names; none when it fails. */
  ghost function Subdirs(p: string, list: string -> Option<seq<DavEntry>>): set<string> {
    var b := StripChar(p, '/');
    match list(b)
    case None => {}
    case Some(es) => DirNames(b, es)
  }

  /** `Subdirs` as a function of the path alone. */
  ghost function SubdirsOf(list: string -> Option<seq<DavEntry>>): string -> set<string> {
    p => Subdirs(p, list)
  }

  /** `p` is a subdirectory named by the listing of one of the `listed` directories. */
  ghost predicate NamedByListed(p: string, listed: seq<(string, nat)>, sub: string -> set<string>) {
    exists k :: 0 <= k < |listed| && p in sub(listed[k].0)
  }

  /** The frontier item `x` was named by the listing of a listed directory one level above it. */
  ghost predicate FoundAtDepth(x: (string, nat), listed: seq<(string, nat)>, sub: string -> set<string>) {
    exists i :: 0 <= i < |listed| && x.1 == listed[i].1 + 1 && x.0 in sub(listed[i].0)
  }

  /** `listed[k]` was named by the listing of an earlier listed directory one level above it. */
  ghost predicate FoundAtDepthBefore(listed: seq<(string, nat)>, k: int, sub: string -> set<string>)
    requires 0 <= k < |listed|
  {
    exists i :: 0 <= i < k && listed[k].1 == listed[i].1 + 1 && listed[k].0 in sub(listed[i].0)
  }

  /** The listing oracle names only directories of the finite set `universe`. */
  ghost predicate Bounded(list: string -> Option<seq<DavEntry>>, universe: set<string>) {
    forall p: string, es: seq<DavEntry>, e: DavEntry :: list(p) == Some(es) && e in es && e.isDir ==> StripChar(e.path, '/') in universe
  }

  lemma SubdirsBounded(p: string, list: string -> Option<seq<DavEntry>>, universe: set<string>)
    requires Bounded(list, universe)
    ensures SubdirsOf(list)(p) <= universe
  {
  }

  /**
    `list_directories_recursive(base_path, max_depth)`: every directory named by a
    listing made below `max_depth`, starting from the slash-stripped base, sorted and
    without repeats. A failed listing counts as empty. `listed` holds the (path, depth)
    pairs whose listing was requested: each depth is below `max_depth`, and each pair
    after the first was named by an earlier listing one level up. `pushed` holds every
    pair ever put on the frontier: the base at depth 0, then each result once, one level
    below the listing that first named it. Each pushed pair is listed unless it is at or
    beyond `max_depth`, so the result is closed under the listings of directories
    pushed above that depth.
   */
  method ListDirectoriesRecursive(basePath: string, maxDepth: int, list: string -> Option<seq<DavEntry>>, ghost universe: set<string>)
    returns (r: seq<string>, ghost listed: seq<(string, nat)>, ghost pushed: seq<(string, nat)>)
    requires Bounded(list, universe)
    ensures StrictlySorted(r)
    ensures forall k :: 0 <= k < |listed| ==> listed[k].1 < maxDepth
    ensures maxDepth > 0 ==> |listed| >= 1 && listed[0] == (StripChar(basePath, '/'), 0)
    ensures forall k :: 0 < k < |listed| ==> FoundAtDepthBefore(listed, k, SubdirsOf(list))
    ensures forall p :: p in r <==> NamedByListed(p, listed, SubdirsOf(list))
    ensures |pushed| >= 1 && pushed[0] == (StripChar(basePath, '/'), 0)
    ensures forall x :: x in listed ==> x in pushed
    ensures forall x :: x in pushed ==> x in listed || x.1 >= maxDepth
    ensures forall k :: 0 < k < |pushed| ==> pushed[k].0 in r && FoundAtDepth(pushed[k], listed, SubdirsOf(list))
    ensures forall p :: p in r ==> exists k :: 0 < k < |pushed| && pushed[k].0 == p
    ensures forall i, j :: 0 < i < j < |pushed| ==> pushed[i].0 != pushed[j].0
    ensures forall x, q :: x in pushed && x.1 < maxDepth && q in Subdirs(x.0, list) ==> q in r
  {
    var base := StripChar(basePath, '/');
    var out: set<string> := {};
    var frontier: seq<(string, nat)> := [(base, 0)];
    listed := [];
    pushed := [(base, 0)];
    while frontier != []
      invariant RecInv(base, maxDepth, SubdirsOf(list), universe, out, frontier, listed)
      invariant PushInv(base, maxDepth, SubdirsOf(list), out, frontier, listed, pushed)
      decreases |universe - out|, |frontier|
    {
      var top := frontier[|frontier| - 1];
      ghost var frontier0 := frontier;
      frontier := frontier[..|frontier| - 1];
      var cur, d := top.0, top.1;
      if d >= maxDepth {
        RecSkip(base, maxDepth, SubdirsOf(list), universe, out, frontier0, listed);
        PushSkip(base, maxDepth, SubdirsOf(list), out, frontier0, listed, pushed);
        continue;
      }
      var names := SubdirNames(cur, list, universe);
      ghost var out0 := out;
      out, frontier := Discover(names, d, out, frontier);
      RecVisit(base, maxDepth, SubdirsOf(list), universe, out0, frontier0, listed, names, out, frontier);
      PushVisit(base, maxDepth, SubdirsOf(list), out0, frontier0, listed, pushed, names, out, frontier);
      pushed := pushed + frontier[|frontier0| - 1..];
      listed := listed + [top];
      if out != out0 {
        SetGrows(universe, out0, out);
      }
    }
    var members := SetToSeq(out);
    r := SortedSet(members);
    RecDone(base, maxDepth, list, universe, out, listed, pushed, r);
  }

  /** With the frontier empty, the invariants give the promises of `list_directories_recursive`. */
  lemma RecDone(base: string, maxDepth: int, list: string -> Option<seq<DavEntry>>, universe: set<string>,
                out: set<string>, listed: seq<(string, nat)>, pushed: seq<(string, nat)>, r: seq<string>)
    requires RecInv(base, maxDepth, SubdirsOf(list), universe, out, [], listed)
    requires PushInv(base, maxDepth, SubdirsOf(list), out, [], listed, pushed)
    requires forall p :: p in r <==> p in out
    ensures forall k :: 0 <= k < |listed| ==> listed[k].1 < maxDepth
    ensures maxDepth > 0 ==> |listed| >= 1 && listed[0] == (base, 0)
    ensures forall k :: 0 < k < |listed| ==> FoundAtDepthBefore(listed, k, SubdirsOf(list))
    ensures forall p :: p in r <==> NamedByListed(p, listed, SubdirsOf(list))
    ensures |pushed| >= 1 && pushed[0] == (base, 0)
    ensures forall x :: x in listed ==> x in pushed
    ensures forall x :: x in pushed ==> x in listed || x.1 >= maxDepth
    ensures forall k :: 0 < k < |pushed| ==> pushed[k].0 in r && FoundAtDepth(pushed[k], listed, SubdirsOf(list))
    ensures forall p :: p in r ==> exists k :: 0 < k < |pushed| && pushed[k].0 == p
    ensures forall i, j :: 0 < i < j < |pushed| ==> pushed[i].0 != pushed[j].0
    ensures forall x, q :: x in pushed && x.1 < maxDepth && q in Subdirs(x.0, list) ==> q in r
  {
    forall p | NamedByListed(p, listed, SubdirsOf(list)) ensures p in out {
      var k :| 0 <= k < |listed| && p in SubdirsOf(list)(listed[k].0);
    }
    RecClosed(maxDepth, SubdirsOf(list), out, listed, pushed);
  }

  /** `list_directories(cur)` inside the recursive walk; a failed listing names no subdirectory. */
  method SubdirNames(cur: string, list: string -> Option<seq<DavEntry>>, ghost universe: set<string>)
    returns (names: seq<string>)
    requires Bounded(list, universe)
    ensures forall p :: p in names <==> p in SubdirsOf(list)(cur)
    ensures SubdirsOf(list)(cur) <= universe
  {
    var subs := ListDirectories(cur, list);
    names := subs.GetOr([]);
    SubdirsBounded(cur, list, universe);
  }

  /**
    The loop over one listing's subdirectories: each one not seen before is recorded and
    queued one level down, once, after what the frontier already holds.
   */
  method Discover(names: seq<string>, d: nat, out: set<string>, frontier: seq<(string, nat)>)
    returns (out': set<string>, frontier': seq<(string, nat)>)
    ensures out' == out + set x | x in names
    ensures forall x :: x in frontier' ==> x in frontier || (x.0 in names && x.1 == d + 1)
    ensures out' == out ==> frontier' == frontier
    ensures Queued(names, d, out, frontier, frontier')
  {
    out', frontier' := out, frontier;
    for j := 0 to |names|
      invariant out' == out + set i | 0 <= i < j :: names[i]
      invariant Queued(names[..j], d, out, frontier, frontier')
    {
      QueuedRecorded(names, j, d, out, frontier, frontier', out');
      if names[j] !in out' {
        QueuedPush(names, j, d, out, frontier, frontier', out');
        out' := out' + {names[j]};
        frontier' := frontier' + [(names[j], d + 1)];
      } else {
        QueuedKeep(names, j, d, out, frontier, frontier', out');
      }
    }
    assert (set i | 0 <= i < |names| :: names[i]) == set x | x in names;
    assert names[..|names|] == names;
    QueuedFacts(names, d, out, frontier, frontier');
  }

  /**
    `frontier'` is `frontier` followed by one pair at depth `d + 1` for each of `names`
    not in `out`, and nothing else.
   */
  ghost predicate Queued(names: seq<string>, d: nat, out: set<string>, frontier: seq<(string, nat)>, frontier': seq<(string, nat)>) {
    |frontier| <= |frontier'| && frontier'[..|frontier|] == frontier
    && (forall k :: |frontier| <= k < |frontier'| ==> frontier'[k].0 in names && frontier'[k].0 !in out && frontier'[k].1 == d + 1)
    && (forall i, j :: |frontier| <= i < j < |frontier'| ==> frontier'[i].0 != frontier'[j].0)
    && (forall p :: p in names && p !in out ==> exists k :: |frontier| <= k < |frontier'| && frontier'[k].0 == p)
  }

  /** What `Queued` says about the frontier as a whole. */
  lemma QueuedFacts(names: seq<string>, d: nat, out: set<string>, frontier: seq<(string, nat)>, frontier': seq<(string, nat)>)
    requires Queued(names, d, out, frontier, frontier')
    ensures forall x :: x in frontier' ==> x in frontier || (x.0 in names && x.1 == d + 1)
    ensures (forall p :: p in names ==> p in out) ==> frontier' == frontier
  {
    assert frontier' == frontier + frontier'[|frontier|..];
    if frontier' != frontier {
      var p := frontier'[|frontier|].0;
      assert p in names && p !in out;
    }
  }

  /** The queued names are among those already recorded. */
  lemma QueuedRecorded(names: seq<string>, j: nat, d: nat, out: set<string>, frontier: seq<(string, nat)>,
                       f: seq<(string, nat)>, outj: set<string>)
    requires j < |names|
    requires outj == out + set i | 0 <= i < j :: names[i]
    requires Queued(names[..j], d, out, frontier, f)
    ensures forall k :: |frontier| <= k < |f| ==> f[k].0 in outj
  {
    forall k | |frontier| <= k < |f| ensures f[k].0 in outj {
      var i :| 0 <= i < j && names[..j][i] == f[k].0;
      assert names[i] == f[k].0;
    }
  }

  /** A name recorded before is not queued again. */
  lemma QueuedKeep(names: seq<string>, j: nat, d: nat, out: set<string>, frontier: seq<(string, nat)>,
                   f: seq<(string, nat)>, outj: set<string>)
    requires j < |names| && names[j] in outj
    requires outj == out + set i | 0 <= i < j :: names[i]
    requires Queued(names[..j], d, out, frontier, f)
    ensures Queued(names[..j + 1], d, out, frontier, f)
  {
    var pre := names[..j];
    assert names[..j + 1] == pre + [names[j]];
    if names[j] !in out {
      var i :| 0 <= i < j && names[i] == names[j];
      assert pre[i] == names[j];
    }
  }

  /** A name not recorded before is queued once, at the end. */
  lemma QueuedPush(names: seq<string>, j: nat, d: nat, out: set<string>, frontier: seq<(string, nat)>,
                   f: seq<(string, nat)>, outj: set<string>)
    requires j < |names| && names[j] !in outj
    requires outj == out + set i | 0 <= i < j :: names[i]
    requires Queued(names[..j], d, out, frontier, f)
    requires forall k :: |frontier| <= k < |f| ==> f[k].0 in outj
    ensures Queued(names[..j + 1], d, out, frontier, f + [(names[j], d + 1)])
  {
    var pre := names[..j];
    var pre' := names[..j + 1];
    var n := names[j];
    var f' := f + [(n, d + 1)];
    assert pre' == pre + [n];
    assert f'[..|frontier|] == frontier;
    forall k | |frontier| <= k < |f'| ensures f'[k].0 in pre' && f'[k].0 !in out && f'[k].1 == d + 1 {
      if k < |f| {
        assert f'[k] == f[k];
      }
    }
    forall i, k | |frontier| <= i < k < |f'| ensures f'[i].0 != f'[k].0 {
      assert f'[i] == f[i];
      if k < |f| {
        assert f'[k] == f[k];
      }
    }
    forall p | p in pre' && p !in out ensures exists k :: |frontier| <= k < |f'| && f'[k].0 == p {
      if p in pre {
        var k :| |frontier| <= k < |f| && f[k].0 == p;
        assert f'[k] == f[k];
      } else {
        assert f'[|f|].0 == p;
      }
    }
  }

  /** A set that grows inside `u` leaves less of `u` over. */
  lemma SetGrows(u: set<string>, a: set<string>, b: set<string>)
    requires a <= b <= u && a != b
    ensures |u - b| < |u - a|
  {
    var x :| x in b && x !in a;
    LeftShrinks(u, a, x);
    assert u - b <= u - (a + {x});
    SubsetCard(u - b, u - (a + {x}));
  }

  lemma SubsetCard(a: set<string>, b: set<string>)
    requires a <= b
    ensures |a| <= |b|
  {
    assert b == a + (b - a);
  }

  /** The loop invariant of `list_directories_recursive`. */
  ghost predicate RecInv(base: string, maxDepth: int, sub: string -> set<string>, universe: set<string>,
                         out: set<string>, frontier: seq<(string, nat)>, listed: seq<(string, nat)>)
  {
    out <= universe
    && (forall k :: 0 <= k < |listed| ==> listed[k].1 < maxDepth)
    && (listed == [] ==> frontier == [(base, 0)] || (frontier == [] && maxDepth <= 0))
    && (listed != [] ==> listed[0] == (base, 0))
    && (forall p :: p in out ==> NamedByListed(p, listed, sub))
    && (forall k :: 0 <= k < |listed| ==> sub(listed[k].0) <= out)
    && (forall x :: x in frontier ==> (listed == [] && x == (base, 0)) || FoundAtDepth(x, listed, sub))
    && (forall k :: 0 < k < |listed| ==> FoundAtDepthBefore(listed, k, sub))
  }

  /** Dropping a frontier item at or below the depth limit keeps the invariant. */
  lemma RecSkip(base: string, maxDepth: int, sub: string -> set<string>, universe: set<string>,
                out: set<string>, frontier: seq<(string, nat)>, listed: seq<(string, nat)>)
    requires RecInv(base, maxDepth, sub, universe, out, frontier, listed)
    requires frontier != [] && frontier[|frontier| - 1].1 >= maxDepth
    ensures RecInv(base, maxDepth, sub, universe, out, frontier[..|frontier| - 1], listed)
  {
    var rest := frontier[..|frontier| - 1];
    assert forall x :: x in rest ==> x in frontier;
  }

  /** Listing the top item and recording its subdirectories keeps the invariant. */
  lemma RecVisit(base: string, maxDepth: int, sub: string -> set<string>, universe: set<string>,
                 out: set<string>, frontier: seq<(string, nat)>, listed: seq<(string, nat)>,
                 names: seq<string>, out': set<string>, frontier': seq<(string, nat)>)
    requires RecInv(base, maxDepth, sub, universe, out, frontier, listed)
    requires frontier != [] && frontier[|frontier| - 1].1 < maxDepth
    requires forall p :: p in names <==> p in sub(frontier[|frontier| - 1].0)
    requires sub(frontier[|frontier| - 1].0) <= universe
    requires out' == out + set x | x in names
    requires forall x :: x in frontier' ==> x in frontier[..|frontier| - 1] || (x.0 in names && x.1 == frontier[|frontier| - 1].1 + 1)
    ensures RecInv(base, maxDepth, sub, universe, out', frontier', listed + [frontier[|frontier| - 1]])
  {
    var top := frontier[|frontier| - 1];
    var listed' := listed + [top];
    assert top in frontier;
    assert listed == [] ==> top == (base, 0);
    RecVisitNamed(listed, top, sub, names, out, out');
    RecVisitFound(base, listed, top, sub, names, frontier, frontier');
  }

  lemma RecVisitNamed(listed: seq<(string, nat)>, top: (string, nat), sub: string -> set<string>,
                      names: seq<string>, out: set<string>, out': set<string>)
    requires forall p :: p in names <==> p in sub(top.0)
    requires out' == out + set x | x in names
    requires forall p :: p in out ==> NamedByListed(p, listed, sub)
    requires forall k :: 0 <= k < |listed| ==> sub(listed[k].0) <= out
    ensures forall p :: p in out' ==> NamedByListed(p, listed + [top], sub)
    ensures forall k :: 0 <= k < |listed| + 1 ==> sub((listed + [top])[k].0) <= out'
  {
    var listed' := listed + [top];
    forall p | p in out' ensures NamedByListed(p, listed', sub) {
      if p in out {
        var k :| 0 <= k < |listed| && p in sub(listed[k].0);
        assert listed'[k] == listed[k];
      } else {
        assert listed'[|listed|] == top;
      }
    }
    forall k | 0 <= k < |listed'| ensures sub(listed'[k].0) <= out' {
      if k < |listed| {
        assert listed'[k] == listed[k];
      }
    }
  }

  lemma RecVisitFound(base: string, listed: seq<(string, nat)>, top: (string, nat), sub: string -> set<string>,
                      names: seq<string>, frontier: seq<(string, nat)>, frontier': seq<(string, nat)>)
    requires frontier != [] && top == frontier[|frontier| - 1]
    requires forall p :: p in names <==> p in sub(top.0)
    requires forall x :: x in frontier' ==> x in frontier[..|frontier| - 1] || (x.0 in names && x.1 == top.1 + 1)
    requires listed == [] ==> frontier == [(base, 0)]
    requires forall x :: x in frontier ==> (listed == [] && x == (base, 0)) || FoundAtDepth(x, listed, sub)
    requires forall k :: 0 < k < |listed| ==> FoundAtDepthBefore(listed, k, sub)
    ensures forall x :: x in frontier' ==> FoundAtDepth(x, listed + [top], sub)
    ensures forall k :: 0 < k < |listed| + 1 ==> FoundAtDepthBefore(listed + [top], k, sub)
  {
    var listed' := listed + [top];
    assert top in frontier;
    forall x | x in frontier' ensures FoundAtDepth(x, listed', sub) {
      if x in frontier[..|frontier| - 1] {
        assert x in frontier;
        FoundAtDepthSnoc(x, listed, top, sub);
      } else {
        assert listed'[|listed|] == top;
      }
    }
    forall k | 0 < k < |listed'| ensures FoundAtDepthBefore(listed', k, sub) {
      FoundAtDepthBeforeSnoc(listed, top, k, sub);
    }
  }

  lemma FoundAtDepthSnoc(x: (string, nat), listed: seq<(string, nat)>, top: (string, nat), sub: string -> set<string>)
    requires FoundAtDepth(x, listed, sub)
    ensures FoundAtDepth(x, listed + [top], sub)
  {
    var i :| 0 <= i < |listed| && x.1 == listed[i].1 + 1 && x.0 in sub(listed[i].0);
    var listed' := listed + [top];
    assert listed'[i] == listed[i];
    assert 0 <= i < |listed'| && x.1 == listed'[i].1 + 1 && x.0 in sub(listed'[i].0);
  }

  lemma FoundAtDepthBeforeSnoc(listed: seq<(string, nat)>, top: (string, nat), k: int, sub: string -> set<string>)
    requires 0 < k <= |listed|
    requires k < |listed| ==> FoundAtDepthBefore(listed, k, sub)
    requires k == |listed| ==> FoundAtDepth(top, listed, sub)
    ensures FoundAtDepthBefore(listed + [top], k, sub)
  {
    var listed' := listed + [top];
    if k < |listed| {
      var i :| 0 <= i < k && listed[k].1 == listed[i].1 + 1 && listed[k].0 in sub(listed[i].0);
      assert listed'[i] == listed[i] && listed'[k] == listed[k];
      assert 0 <= i < k && listed'[k].1 == listed'[i].1 + 1 && listed'[k].0 in sub(listed'[i].0);
    } else {
      var i :| 0 <= i < |listed| && top.1 == listed[i].1 + 1 && top.0 in sub(listed[i].0);
      assert listed'[i] == listed[i] && listed'[k] == top;
      assert 0 <= i < k && listed'[k].1 == listed'[i].1 + 1 && listed'[k].0 in sub(listed'[i].0);
    }
  }

  /**
    The bookkeeping of what was ever put on the frontier: the base first, every frontier
    item, every listed item; each pushed item is still on the frontier, listed, or too
    deep; the items pushed after the base carry exactly the recorded names, each once,
    one level below a listing that named them.
   */
  ghost predicate PushInv(base: string, maxDepth: int, sub: string -> set<string>, out: set<string>,
                          frontier: seq<(string, nat)>, listed: seq<(string, nat)>, pushed: seq<(string, nat)>)
  {
    |pushed| >= 1 && pushed[0] == (base, 0)
    && (forall x :: x in frontier ==> x in pushed)
    && (forall x :: x in listed ==> x in pushed)
    && (forall x :: x in pushed ==> x in frontier || x in listed || x.1 >= maxDepth)
    && (forall k :: 0 < k < |pushed| ==> pushed[k].0 in out && FoundAtDepth(pushed[k], listed, sub))
    && (forall p :: p in out ==> exists k :: 0 < k < |pushed| && pushed[k].0 == p)
    && (forall i, j :: 0 < i < j < |pushed| ==> pushed[i].0 != pushed[j].0)
  }

  /** Dropping a frontier item at or beyond the depth limit keeps the bookkeeping. */
  lemma PushSkip(base: string, maxDepth: int, sub: string -> set<string>, out: set<string>,
                 frontier: seq<(string, nat)>, listed: seq<(string, nat)>, pushed: seq<(string, nat)>)
    requires PushInv(base, maxDepth, sub, out, frontier, listed, pushed)
    requires frontier != [] && frontier[|frontier| - 1].1 >= maxDepth
    ensures PushInv(base, maxDepth, sub, out, frontier[..|frontier| - 1], listed, pushed)
  {
    var rest := frontier[..|frontier| - 1];
    assert forall x :: x in frontier <==> x in rest || x == frontier[|frontier| - 1];
  }

  /** Listing the top item and queueing its new subdirectories keeps the bookkeeping. */
  lemma PushVisit(base: string, maxDepth: int, sub: string -> set<string>, out: set<string>,
                  frontier: seq<(string, nat)>, listed: seq<(string, nat)>, pushed: seq<(string, nat)>,
                  names: seq<string>, out': set<string>, frontier': seq<(string, nat)>)
    requires PushInv(base, maxDepth, sub, out, frontier, listed, pushed)
    requires frontier != [] && frontier[|frontier| - 1].1 < maxDepth
    requires forall p :: p in names <==> p in sub(frontier[|frontier| - 1].0)
    requires out' == out + set x | x in names
    requires Queued(names, frontier[|frontier| - 1].1, out, frontier[..|frontier| - 1], frontier')
    ensures PushInv(base, maxDepth, sub, out', frontier', listed + [frontier[|frontier| - 1]],
                    pushed + frontier'[|frontier| - 1..])
  {
    var top := frontier[|frontier| - 1];
    var added := frontier'[|frontier| - 1..];
    PushVisitPlaces(maxDepth, frontier, listed, pushed, frontier', listed + [top], pushed + added);
    PushVisitPushed(sub, out, listed, pushed, top, names, out', frontier[..|frontier| - 1], frontier', listed + [top], pushed + added);
  }

  /** After a visit, every pushed item is on the frontier, listed, or too deep. */
  lemma PushVisitPlaces(maxDepth: int, frontier: seq<(string, nat)>, listed: seq<(string, nat)>,
                        pushed: seq<(string, nat)>, frontier': seq<(string, nat)>,
                        listed': seq<(string, nat)>, pushed': seq<(string, nat)>)
    requires frontier != [] && frontier[|frontier| - 1].1 < maxDepth
    requires |frontier| - 1 <= |frontier'| && frontier'[..|frontier| - 1] == frontier[..|frontier| - 1]
    requires listed' == listed + [frontier[|frontier| - 1]]
    requires pushed' == pushed + frontier'[|frontier| - 1..]
    requires forall x :: x in frontier ==> x in pushed
    requires forall x :: x in listed ==> x in pushed
    requires forall x :: x in pushed ==> x in frontier || x in listed || x.1 >= maxDepth
    ensures forall x :: x in frontier' ==> x in pushed'
    ensures forall x :: x in listed' ==> x in pushed'
    ensures forall x :: x in pushed' ==> x in frontier' || x in listed' || x.1 >= maxDepth
  {
    var top := frontier[|frontier| - 1];
    var rest := frontier[..|frontier| - 1];
    var added := frontier'[|rest|..];
    assert frontier' == rest + added;
    assert forall x :: x in frontier <==> x in rest || x == top;
  }

  /** The pushed items after a visit: names in `out'`, one level below a listing, each once. */
  lemma PushVisitPushed(sub: string -> set<string>, out: set<string>, listed: seq<(string, nat)>,
                        pushed: seq<(string, nat)>, top: (string, nat), names: seq<string>,
                        out': set<string>, rest: seq<(string, nat)>, frontier': seq<(string, nat)>,
                        listed': seq<(string, nat)>, pushed': seq<(string, nat)>)
    requires |pushed| >= 1
    requires Queued(names, top.1, out, rest, frontier')
    requires listed' == listed + [top] && pushed' == pushed + frontier'[|rest|..]
    requires forall k :: 0 < k < |pushed| ==> pushed[k].0 in out && FoundAtDepth(pushed[k], listed, sub)
    requires forall p :: p in out ==> exists k :: 0 < k < |pushed| && pushed[k].0 == p
    requires forall i, j :: 0 < i < j < |pushed| ==> pushed[i].0 != pushed[j].0
    requires forall p :: p in names <==> p in sub(top.0)
    requires out' == out + set x | x in names
    ensures forall k :: 0 < k < |pushed'| ==> pushed'[k].0 in out' && FoundAtDepth(pushed'[k], listed', sub)
    ensures forall p :: p in out' ==> exists k :: 0 < k < |pushed'| && pushed'[k].0 == p
    ensures forall i, j :: 0 < i < j < |pushed'| ==> pushed'[i].0 != pushed'[j].0
  {
    var added := frontier'[|rest|..];
    assert forall k :: 0 <= k < |added| ==> added[k] == frontier'[|rest| + k];
    forall k | 0 < k < |pushed'| ensures pushed'[k].0 in out' && FoundAtDepth(pushed'[k], listed', sub) {
      if k < |pushed| {
        assert pushed'[k] == pushed[k];
        FoundAtDepthSnoc(pushed[k], listed, top, sub);
      } else {
        assert pushed'[k] == added[k - |pushed|];
        assert listed'[|listed|] == top;
      }
    }
    forall p | p in out' ensures exists k :: 0 < k < |pushed'| && pushed'[k].0 == p {
      if p in out {
        var k :| 0 < k < |pushed| && pushed[k].0 == p;
        assert pushed'[k] == pushed[k];
      } else {
        var k :| |rest| <= k < |frontier'| && frontier'[k].0 == p;
        assert pushed'[|pushed| + k - |rest|] == frontier'[k];
      }
    }
    forall i, j | 0 < i < j < |pushed'| ensures pushed'[i].0 != pushed'[j].0 {
      if j >= |pushed| && i < |pushed| {
        assert pushed'[i] == pushed[i] && pushed'[j] == added[j - |pushed|];
      } else if i >= |pushed| {
        assert pushed'[i] == added[i - |pushed|] && pushed'[j] == added[j - |pushed|];
      } else {
        assert pushed'[i] == pushed[i] && pushed'[j] == pushed[j];
      }
    }
  }

  /** With the frontier empty, every pushed item above the depth limit had its subdirectories recorded. */
  lemma RecClosed(maxDepth: int, sub: string -> set<string>, out: set<string>,
                  listed: seq<(string, nat)>, pushed: seq<(string, nat)>)
    requires forall x :: x in pushed ==> x in listed || x.1 >= maxDepth
    requires forall k :: 0 <= k < |listed| ==> sub(listed[k].0) <= out
    ensures forall x, q :: x in pushed && x.1 < maxDepth && q in sub(x.0) ==> q in out
  {
    forall x, q | x in pushed && x.1 < maxDepth && q in sub(x.0) ensures q in out {
      var k :| 0 <= k < |listed| && listed[k] == x;
    }
  }

  /** The elements of a finite set in some order. */
  method SetToSeq(s: set<string>) returns (r: seq<string>)
    ensures forall x :: x in r <==> x in s
  {
    r := [];
    var left := s;
    while left != {}
      invariant forall x :: x in r <==> x in s && x !in left
      invariant left <= s
      decreases |left|
    {
      var x :| x in left;
      r := r + [x];
      left := left - {x};
    }
  }
}
