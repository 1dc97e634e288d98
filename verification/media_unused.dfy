/** The `nickvulkers:catalog:media:unused` command: every file below the
    product-media root is classified as a cache file, a file referenced by the
    media gallery, or an unused file, and the command reports the totals.

    The recursive directory iterator is replaced by the sequence of entries it
    yields, the gallery query by the list of paths it returns, and `is_dir` on
    the product-media root by a boolean. */
module MediaUnused {
  import opened Paths

  /** One file yielded by the iterator: its pathname and `filesize` of it. */
  datatype Entry = Entry(pathname: string, size: nat)

  /** The figures accumulated by the `foreach` loop over the iterator. */
  datatype Tally = Tally(
    files: seq<string>,   // `$files`: relative paths of the non-cache files
    unused: nat,          // `$unusedFiles`
    cached: nat,          // `$cachedFiles`
    bytesFreed: nat,      // `$bytesFreed`
    listed: seq<string>   // the paths printed as "Unused file: ..."
  )

  /** The last summary line: "Unused files: N." without the remove option,
      "Removed unused files: N." with it. */
  datatype Summary = UnusedLine(count: nat) | RemovedLine(count: nat)

  datatype Report = Report(
    galleryEntries: nat,  // "Media Gallery entries: N."
    files: seq<string>,   // its length is "Files in directory: N."
    unused: nat,
    cached: nat,
    bytesFreed: nat,      // the byte total behind "Disk space freed"
    listed: seq<string>,
    summary: Summary
  )

  /** `Cli::RETURN_FAILURE` after "Cannot find ... folder", or success with the report. */
  datatype Outcome = MissingRoot(root: string) | Success(report: Report)

  const CachePrefix: string := "/cache/"

  /** `getProductMediaPath()`: the media directory (which ends in a separator)
      followed by `catalog/product`. */
  function ProductMediaPath(mediaPath: string): (root: string)
    ensures StartsWith(root, mediaPath)
    ensures root[|mediaPath|..] == "catalog/product"
  {
    mediaPath + "catalog/product"
  }

  /** The comparison key of an entry: its pathname with the root removed. */
  function RelativePath(root: string, e: Entry): string {
    StripAll(e.pathname, root)
  }

  predicate IsCached(root: string, e: Entry) {
    StartsWith(RelativePath(root, e), CachePrefix)
  }

  /** An entry the command counts as unused: outside the cache and not in the
      gallery list (`in_array` taken as exact string equality). */
  predicate IsUnused(root: string, refs: seq<string>, e: Entry) {
    !IsCached(root, e) && RelativePath(root, e) !in refs
  }

  /** One iteration of the loop body: the entry is counted either as a cache
      file or as a listed file, never both; it is unused exactly when it is
      outside the cache and missing from the gallery list, and only then is it
      counted as unused, printed when listing and its size added when removing. */
  function Step(root: string, refs: seq<string>, remove: bool, list: bool, t: Tally, e: Entry): (r: Tally)
    ensures r.cached + |r.files| == t.cached + |t.files| + 1
    ensures t.files <= r.files && t.listed <= r.listed
    ensures r.unused == t.unused + (if IsUnused(root, refs, e) then 1 else 0)
    ensures IsUnused(root, refs, e) ==> r.files == t.files + [RelativePath(root, e)]
    ensures r.listed != t.listed <==> list && IsUnused(root, refs, e)
    ensures r.bytesFreed == t.bytesFreed + (if remove && IsUnused(root, refs, e) then e.size else 0)
  {
    var rel := RelativePath(root, e);
    if StartsWith(rel, CachePrefix) then
      t.(cached := t.cached + 1)
    else
      var t1 := t.(files := t.files + [rel]);
      if rel in refs then t1
      else
        t1.(unused := t1.unused + 1,
            listed := if list then t1.listed + [rel] else t1.listed,
            bytesFreed := if remove then t1.bytesFreed + e.size else t1.bytesFreed)
  }

  /** The loop: `Step` applied to the entries in iteration order. Every entry
      is counted once, as a cache file or a listed file; the unused count grows
      by at most the number of listed files, and nothing already accumulated is
      lost. */
  function Walk(root: string, refs: seq<string>, remove: bool, list: bool, t: Tally, entries: seq<Entry>): (r: Tally)
    ensures r.cached + |r.files| == t.cached + |t.files| + |entries|
    ensures t.files <= r.files && t.listed <= r.listed
    ensures t.unused <= r.unused && r.unused - t.unused <= |r.files| - |t.files|
    ensures t.bytesFreed <= r.bytesFreed && (!remove ==> r.bytesFreed == t.bytesFreed)
    ensures !list ==> r.listed == t.listed
    decreases |entries|
  {
    if entries == [] then t
    else Walk(root, refs, remove, list, Step(root, refs, remove, list, t, entries[0]), entries[1..])
  }

  // ----- Reference definitions, stated per entry rather than per loop step -----

  /** Relative paths of the entries outside the cache, in iteration order. */
  function NonCachedPaths(root: string, entries: seq<Entry>): seq<string>
    decreases |entries|
  {
    if entries == [] then []
    else (if IsCached(root, entries[0]) then [] else [RelativePath(root, entries[0])])
         + NonCachedPaths(root, entries[1..])
  }

  /** Number of entries under the cache prefix. */
  function CachedCount(root: string, entries: seq<Entry>): nat
    decreases |entries|
  {
    if entries == [] then 0
    else (if IsCached(root, entries[0]) then 1 else 0) + CachedCount(root, entries[1..])
  }

  /** The unused entries, in iteration order. */
  function UnusedEntries(root: string, refs: seq<string>, entries: seq<Entry>): seq<Entry>
    decreases |entries|
  {
    if entries == [] then []
    else (if IsUnused(root, refs, entries[0]) then [entries[0]] else [])
         + UnusedEntries(root, refs, entries[1..])
  }

  function RelativePaths(root: string, entries: seq<Entry>): (r: seq<string>)
    ensures |r| == |entries|
    ensures forall i | 0 <= i < |entries| :: r[i] == RelativePath(root, entries[i])
    decreases |entries|
  {
    if entries == [] then [] else [RelativePath(root, entries[0])] + RelativePaths(root, entries[1..])
  }

  function TotalSize(entries: seq<Entry>): nat
    decreases |entries|
  {
    if entries == [] then 0 else entries[0].size + TotalSize(entries[1..])
  }

  /** The paths of `paths` that are not in `refs`, in order. */
  function Unreferenced(paths: seq<string>, refs: seq<string>): (r: seq<string>)
    ensures |r| <= |paths|
    ensures forall p | p in r :: p in paths && p !in refs
    decreases |paths|
  {
    if paths == [] then []
    else (if paths[0] in refs then [] else [paths[0]]) + Unreferenced(paths[1..], refs)
  }

  /** What the loop accumulates on top of `t`, stated with the reference definitions. */
  function Expected(root: string, refs: seq<string>, remove: bool, list: bool, t: Tally, entries: seq<Entry>): Tally {
    var unused := UnusedEntries(root, refs, entries);
    Tally(
      t.files + NonCachedPaths(root, entries),
      t.unused + |unused|,
      t.cached + CachedCount(root, entries),
      t.bytesFreed + (if remove then TotalSize(unused) else 0),
      t.listed + (if list then RelativePaths(root, unused) else []))
  }

  /** The loop computes the reference figures, whatever it starts from. */
  lemma {:induction false} WalkComputesExpected(root: string, refs: seq<string>, remove: bool, list: bool, t: Tally, entries: seq<Entry>)
    ensures Walk(root, refs, remove, list, t, entries) == Expected(root, refs, remove, list, t, entries)
    decreases |entries|
  {
    if entries != [] {
      var e := entries[0];
      var rest := entries[1..];
      var t' := Step(root, refs, remove, list, t, e);
      WalkComputesExpected(root, refs, remove, list, t', rest);
      StepMatchesExpected(root, refs, remove, list, t, e, rest);
    }
  }

  /** The reference figures of `[e] + rest` are those of `rest` after one step on `e`. */
  lemma StepMatchesExpected(root: string, refs: seq<string>, remove: bool, list: bool, t: Tally, e: Entry, rest: seq<Entry>)
    ensures Expected(root, refs, remove, list, Step(root, refs, remove, list, t, e), rest)
         == Expected(root, refs, remove, list, t, [e] + rest)
  {
    var entries := [e] + rest;
    assert entries[0] == e && entries[1..] == rest;
    if IsCached(root, e) {
      StepCached(root, refs, remove, list, t, e, rest);
    } else if RelativePath(root, e) in refs {
      StepReferenced(root, refs, remove, list, t, e, rest);
    } else {
      StepUnused(root, refs, remove, list, t, e, rest);
    }
  }

  lemma StepCached(root: string, refs: seq<string>, remove: bool, list: bool, t: Tally, e: Entry, rest: seq<Entry>)
    requires IsCached(root, e)
    ensures Expected(root, refs, remove, list, Step(root, refs, remove, list, t, e), rest)
         == Expected(root, refs, remove, list, t, [e] + rest)
  {
    var entries := [e] + rest;
    assert entries[0] == e && entries[1..] == rest;
    assert NonCachedPaths(root, entries) == NonCachedPaths(root, rest);
    assert UnusedEntries(root, refs, entries) == UnusedEntries(root, refs, rest);
  }

  lemma StepReferenced(root: string, refs: seq<string>, remove: bool, list: bool, t: Tally, e: Entry, rest: seq<Entry>)
    requires !IsCached(root, e) && RelativePath(root, e) in refs
    ensures Expected(root, refs, remove, list, Step(root, refs, remove, list, t, e), rest)
         == Expected(root, refs, remove, list, t, [e] + rest)
  {
    var entries := [e] + rest;
    assert entries[0] == e && entries[1..] == rest;
    var rel := RelativePath(root, e);
    assert NonCachedPaths(root, entries) == [rel] + NonCachedPaths(root, rest);
    assert (t.files + [rel]) + NonCachedPaths(root, rest) == t.files + ([rel] + NonCachedPaths(root, rest));
    assert UnusedEntries(root, refs, entries) == UnusedEntries(root, refs, rest);
  }

  lemma StepUnused(root: string, refs: seq<string>, remove: bool, list: bool, t: Tally, e: Entry, rest: seq<Entry>)
    requires IsUnused(root, refs, e)
    ensures Expected(root, refs, remove, list, Step(root, refs, remove, list, t, e), rest)
         == Expected(root, refs, remove, list, t, [e] + rest)
  {
    var entries := [e] + rest;
    assert entries[0] == e && entries[1..] == rest;
    var rel := RelativePath(root, e);
    var unusedRest := UnusedEntries(root, refs, rest);
    assert NonCachedPaths(root, entries) == [rel] + NonCachedPaths(root, rest);
    assert (t.files + [rel]) + NonCachedPaths(root, rest) == t.files + ([rel] + NonCachedPaths(root, rest));
    assert UnusedEntries(root, refs, entries) == [e] + unusedRest;
    assert ([e] + unusedRest)[1..] == unusedRest;
    assert TotalSize([e] + unusedRest) == e.size + TotalSize(unusedRest);
    var ps := RelativePaths(root, unusedRest);
    assert RelativePaths(root, [e] + unusedRest) == [rel] + ps;
    assert (t.listed + [rel]) + ps == t.listed + ([rel] + ps);
  }

  /** `execute`: fails when the product-media root is not a directory; otherwise
      runs the loop from zero and reports the figures. */
  function Scan(mediaPath: string, rootIsDir: bool, entries: seq<Entry>, refs: seq<string>,
                remove: bool, list: bool): (r: Outcome)
    ensures !rootIsDir <==> r.MissingRoot?
    ensures r.MissingRoot? ==> r.root == ProductMediaPath(mediaPath)
    ensures r.Success? ==>
      var root := ProductMediaPath(mediaPath);
      var unused := UnusedEntries(root, refs, entries);
      && r.report.galleryEntries == |refs|
      && r.report.files == NonCachedPaths(root, entries)
      && r.report.cached == CachedCount(root, entries)
      && r.report.unused == |unused|
      && r.report.bytesFreed == (if remove then TotalSize(unused) else 0)
      && r.report.listed == (if list then RelativePaths(root, unused) else [])
      && r.report.summary == (if remove then RemovedLine(|unused|) else UnusedLine(|unused|))
  {
    var root := ProductMediaPath(mediaPath);
    if !rootIsDir then MissingRoot(root)
    else
      var t0 := Tally([], 0, 0, 0, []);
      WalkComputesExpected(root, refs, remove, list, t0, entries);
      var t := Walk(root, refs, remove, list, t0, entries);
      Success(Report(|refs|, t.files, t.unused, t.cached, t.bytesFreed, t.listed,
                     if remove then RemovedLine(t.unused) else UnusedLine(t.unused)))
  }

  // ----- Properties -----

  /** Every entry is either a listed file or a cache file, never both. */
  lemma {:induction false} FilesAndCachedPartitionEntries(root: string, entries: seq<Entry>)
    ensures |NonCachedPaths(root, entries)| + CachedCount(root, entries) == |entries|
    decreases |entries|
  {
    if entries != [] {
      FilesAndCachedPartitionEntries(root, entries[1..]);
    }
  }

  /** The unused entries are exactly the listed files missing from the gallery list. */
  lemma {:induction false} UnusedAreUnreferencedFiles(root: string, refs: seq<string>, entries: seq<Entry>)
    ensures RelativePaths(root, UnusedEntries(root, refs, entries))
         == Unreferenced(NonCachedPaths(root, entries), refs)
    decreases |entries|
  {
    if entries != [] {
      var e := entries[0];
      var rest := entries[1..];
      UnusedAreUnreferencedFiles(root, refs, rest);
      var ps := NonCachedPaths(root, entries);
      if IsCached(root, e) {
        assert ps == NonCachedPaths(root, rest);
      } else {
        assert ps == [RelativePath(root, e)] + NonCachedPaths(root, rest);
        assert ps[1..] == NonCachedPaths(root, rest);
        if IsUnused(root, refs, e) {
          assert RelativePaths(root, [e] + UnusedEntries(root, refs, rest))
              == [RelativePath(root, e)] + RelativePaths(root, UnusedEntries(root, refs, rest));
        }
      }
    }
  }

  /** Report-level partition: files + cached == number of entries, and
      unused <= files, the unused ones being exactly the unreferenced files. */
  lemma ScanCountsPartition(mediaPath: string, entries: seq<Entry>, refs: seq<string>, remove: bool, list: bool)
    ensures var r := Scan(mediaPath, true, entries, refs, remove, list);
      && r.Success?
      && |r.report.files| + r.report.cached == |entries|
      && r.report.unused == |Unreferenced(r.report.files, refs)|
      && r.report.unused <= |r.report.files|
  {
    var root := ProductMediaPath(mediaPath);
    FilesAndCachedPartitionEntries(root, entries);
    UnusedAreUnreferencedFiles(root, refs, entries);
  }

  /** The two options change only `bytesFreed`, the printed list and the wording
      of the summary line; the counts are the same whatever they are. */
  lemma FlagsDoNotChangeCounts(mediaPath: string, entries: seq<Entry>, refs: seq<string>,
                               remove1: bool, list1: bool, remove2: bool, list2: bool)
    ensures var r1 := Scan(mediaPath, true, entries, refs, remove1, list1);
            var r2 := Scan(mediaPath, true, entries, refs, remove2, list2);
      && r1.report.files == r2.report.files
      && r1.report.cached == r2.report.cached
      && r1.report.unused == r2.report.unused
      && r1.report.summary.count == r2.report.summary.count
  {
  }

  /** The loop over `entries + [e]` is one more step after the loop over `entries`. */
  lemma {:induction false} WalkAppend(root: string, refs: seq<string>, remove: bool, list: bool, t: Tally, entries: seq<Entry>, e: Entry)
    ensures Walk(root, refs, remove, list, t, entries + [e])
         == Step(root, refs, remove, list, Walk(root, refs, remove, list, t, entries), e)
    decreases |entries|
  {
    if entries == [] {
      assert [e][1..] == [];
    } else {
      assert (entries + [e])[1..] == entries[1..] + [e];
      WalkAppend(root, refs, remove, list, Step(root, refs, remove, list, t, entries[0]), entries[1..], e);
    }
  }

  /** A further entry under `/cache/` raises the cache counter by one and changes
      nothing else in the report. */
  lemma CachedEntryOnlyCounted(mediaPath: string, entries: seq<Entry>, e: Entry, refs: seq<string>, remove: bool, list: bool)
    requires IsCached(ProductMediaPath(mediaPath), e)
    ensures Scan(mediaPath, true, entries + [e], refs, remove, list).report
         == Scan(mediaPath, true, entries, refs, remove, list).report.(
              cached := Scan(mediaPath, true, entries, refs, remove, list).report.cached + 1)
  {
    WalkAppend(ProductMediaPath(mediaPath), refs, remove, list, Tally([], 0, 0, 0, []), entries, e);
  }

  /** A further entry outside the cache is appended to the file list, and it raises
      the unused count exactly when its relative path is not in the gallery list;
      only then does it add its size under the remove option. */
  lemma FileEntryCounted(mediaPath: string, entries: seq<Entry>, e: Entry, refs: seq<string>, remove: bool, list: bool)
    requires !IsCached(ProductMediaPath(mediaPath), e)
    ensures var before := Scan(mediaPath, true, entries, refs, remove, list).report;
            var after := Scan(mediaPath, true, entries + [e], refs, remove, list).report;
            var rel := RelativePath(ProductMediaPath(mediaPath), e);
      && after.files == before.files + [rel]
      && after.cached == before.cached
      && (after.unused == before.unused + 1 <==> rel !in refs)
      && (after.unused == before.unused <==> rel in refs)
      && after.bytesFreed == before.bytesFreed + (if remove && rel !in refs then e.size else 0)
  {
    WalkAppend(ProductMediaPath(mediaPath), refs, remove, list, Tally([], 0, 0, 0, []), entries, e);
  }

  /** The relative path of an entry `root + suffix` is the suffix, as long as the
      root does not occur again inside the suffix. */
  lemma RelativePathOfRootedEntry(mediaPath: string, suffix: string, size: nat)
    requires !Occurs(ProductMediaPath(mediaPath), suffix)
    ensures RelativePath(ProductMediaPath(mediaPath), Entry(ProductMediaPath(mediaPath) + suffix, size)) == suffix
  {
    StripLeadingNeedle(ProductMediaPath(mediaPath), suffix);
  }

  /** A root that reappears later in the pathname is removed there too, so such a
      file is compared under a shortened path. */
  lemma RepeatedRootIsRemovedEverywhere()
    ensures var root := ProductMediaPath("/m/");
      RelativePath(root, Entry(root + "/x" + root + "/a.jpg", 1)) == "/x/a.jpg"
  {
    var root := ProductMediaPath("/m/");
    assert root[0] == '/' && root[1] == 'm';
    StripRepeatedRoot(root, "/a.jpg");
  }

  lemma StripRepeatedRoot(root: string, tail: string)
    requires |tail| < |root| && 2 <= |root|
    requires root[0] == '/' && root[1] != 'x'
    ensures StripAll(root + "/x" + root + tail, root) == "/x" + tail
  {
    var inner := ['x'] + (root + tail);
    var mid := ['/'] + inner;
    RepeatedRootShape(root, tail);
    StripAfterLeadingNeedle(root, mid);
    StripKeepsMismatchedChar('/', inner, root, 1);
    StripKeepsMismatchedChar('x', root + tail, root, 0);
    StripRootBeforeShortTail(root, tail);
  }

  lemma RepeatedRootShape(root: string, tail: string)
    ensures root + "/x" + root + tail == root + (['/'] + (['x'] + (root + tail)))
    ensures ['/'] + (['x'] + tail) == "/x" + tail
  {
  }

  lemma StripRootBeforeShortTail(root: string, tail: string)
    requires |tail| < |root|
    ensures StripAll(root + tail, root) == tail
  {
    ShortHasNoOccurrence(root, tail);
    StripLeadingNeedle(root, tail);
  }

  /** A character at which no occurrence of the root can start is kept in front of
      the stripped remainder. */
  lemma StripKeepsMismatchedChar(c: char, rest: string, root: string, i: nat)
    requires i < |root| <= 1 + |rest|
    requires ([c] + rest)[i] != root[i]
    ensures StripAll([c] + rest, root) == [c] + StripAll(rest, root)
  {
    var s := [c] + rest;
    assert s[..|root|][i] != root[i];
    assert s[1..] == rest;
    StripKeepsUnmatchedFirst(s, root);
  }

  /** A gallery referencing `/a.jpg`, and `a.jpg`, `b.jpg` and `cache/c.jpg`
      under the root: two files, one cache file, and only `/b.jpg` unused. */
  lemma SmallCatalogExample()
    ensures var root := ProductMediaPath("/m/");
            var entries := [Entry(root + "/a.jpg", 10),
                            Entry(root + "/b.jpg", 20),
                            Entry(root + "/cache/c.jpg", 30)];
            var r := Scan("/m/", true, entries, ["/a.jpg"], true, true);
      && r.report.files == ["/a.jpg", "/b.jpg"]
      && r.report.cached == 1
      && r.report.unused == 1
      && r.report.bytesFreed == 20
      && r.report.summary == RemovedLine(1)
  {
    var root := ProductMediaPath("/m/");
    var refs := ["/a.jpg"];
    var a := Entry(root + "/a.jpg", 10);
    var b := Entry(root + "/b.jpg", 20);
    var c := Entry(root + "/cache/c.jpg", 30);
    ShortHasNoOccurrence(root, "/a.jpg");
    ShortHasNoOccurrence(root, "/b.jpg");
    ShortHasNoOccurrence(root, "/cache/c.jpg");
    RelativePathOfRootedEntry("/m/", "/a.jpg", 10);
    RelativePathOfRootedEntry("/m/", "/b.jpg", 20);
    RelativePathOfRootedEntry("/m/", "/cache/c.jpg", 30);
    assert StartsWith("/cache/c.jpg", CachePrefix);
    assert !StartsWith("/a.jpg", CachePrefix) && !StartsWith("/b.jpg", CachePrefix);
    assert [] + [a] == [a] && [a] + [b] == [a, b] && [a, b] + [c] == [a, b, c];
    FileEntryCounted("/m/", [], a, refs, true, true);
    FileEntryCounted("/m/", [a], b, refs, true, true);
    CachedEntryOnlyCounted("/m/", [a, b], c, refs, true, true);
  }
}
