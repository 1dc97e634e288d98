# magento2-clean-media, modelled in Dafny

This project models the two decision procedures of the `NickVulkers_CleanMedia`
Magento module, with the filesystem replaced by data:

- **Unused catalog media** (`nickvulkers:catalog:media:unused`). Every file below
  the product-media root (`<media>/catalog/product`) gets a path relative to that
  root. A file whose relative path starts with `/cache/` is only counted as a
  cache file. Every other file goes on the file list, and it is unused when the
  media-gallery table does not list its relative path. With `remove_unused`, the
  size of each unused file is added to the bytes-freed total. The command then
  prints the unused count as the number of files removed.
  `MediaUnused.Scan` is this command as a pure function. Its input is the entry
  sequence the recursive iterator yields, the gallery path list and the two
  options. The loop is a left fold (`Walk` of `Step`), and it is proved equal to
  per-entry reference definitions (`NonCachedPaths`, `CachedCount`,
  `UnusedEntries`, `TotalSize`).
- **Duplicate finder** (`GetDuplicates`). Each root has its trailing separators
  trimmed. Roots that are not directories are skipped. Each remaining directory
  is walked, recursively or not, and the per-directory maps from md5 to paths are
  merged key by key with `array_merge_recursive`. Only hashes with more than one
  path are kept. The tree is the datatype `Duplicates.Node`, and md5 is the
  function parameter `hash`.
  As written, `scanDir` stores each hash into a stray local `$files` and never
  into the map it returns, so the finder always reports nothing.
  `Variant.AsWritten` models that code, and `ExecuteAsWrittenEmpty` proves the
  result is always empty. `Variant.Intended` appends each file's path under its
  hash, which the source does **not** do. That variant is proved equal to
  "walk, then group by hash", and the properties of the duplicate report are
  stated about it.

Modules: `Paths` (`str_replace`, `str_starts_with`, `rtrim`), `MediaUnused`,
`HashGroups` (merge, filter and reference grouping of hash→paths maps),
`Duplicates`.

Facts about the code that the model keeps:
- The command never deletes a file. It adds each unused file's size to
  `bytesFreed` and prints the unused count as "Removed unused files".
- The `/cache/` exclusion is hard-coded.
- The gallery paths are a list checked with `in_array`.
- The duplicate finder, as written, reports no duplicates at all.
- Even the intended finder does not remove repeated roots. Given `/r` and `/r/`,
  it scans the same directory twice and reports a lone file as a duplicate of
  itself (`Duplicates.RepeatedRootReportsItself`). `LoneFileNotReported` is about
  a file reached once, so it does not cover this case.

## Model

| member | source | states |
|---|---|---|
| MediaUnused.Scan | Console/Command/CatalogMediaUnused.php:106-174 | For a walk that finishes, fails with the product-media path exactly when that path is not a directory. Otherwise the report holds the gallery entry count; the relative paths of the non-cache entries in order; the number of cache entries; the number of unused entries; the summed size of the unused entries under `remove_unused` and 0 without it; the unused paths listed under `list_unused`; and a summary line that shows the unused count, worded as removed files under `remove_unused`. |
| MediaUnused.ProductMediaPath | Console/Command/CatalogMediaUnused.php:201-204 | The product-media root starts with the media path, and what follows it is exactly `catalog/product`. |
| MediaUnused.Step | Console/Command/CatalogMediaUnused.php:132-153 | One loop iteration counts the entry once, either as a cache file or as a file-list entry. The unused count rises by one exactly when the entry is outside the cache and missing from the gallery list, and then the relative path is appended to the file list. A path is printed exactly when listing and unused. The entry's size is added exactly when removing and unused. |
| MediaUnused.Walk | Console/Command/CatalogMediaUnused.php:131-154 | The `foreach` counts every entry once (cache + file list grows by the entry count). It only extends the file list and the printed list. The unused count grows by at most the number of new file-list entries. Without `remove_unused` the byte total is unchanged, and without `list_unused` nothing is printed. |
| MediaUnused.WalkComputesExpected | Console/Command/CatalogMediaUnused.php:131-154 | The loop over the iterator, started from any tally, adds exactly the per-entry reference figures: non-cache paths, cache count, unused count, bytes of unused entries when removing, and listed paths when listing. |
| MediaUnused.FilesAndCachedPartitionEntries | Console/Command/CatalogMediaUnused.php:131-140 | Every entry is a file-list entry or a cache entry, never both: the two counts add up to the number of entries. |
| MediaUnused.UnusedAreUnreferencedFiles | Console/Command/CatalogMediaUnused.php:140-143 | The relative paths of the unused entries are exactly the file-list paths missing from the gallery list, in order. |
| MediaUnused.ScanCountsPartition | Console/Command/CatalogMediaUnused.php:131-159 | In a successful report, files + cached = total entries, the unused count equals the number of unreferenced file-list paths, and unused ≤ files. |
| MediaUnused.FlagsDoNotChangeCounts | Console/Command/CatalogMediaUnused.php:142-165 | The file list, cache count, unused count and the figure on the summary line are the same for every combination of `remove_unused` and `list_unused`. |
| MediaUnused.CachedEntryOnlyCounted | Console/Command/CatalogMediaUnused.php:134-138 | One more entry under `/cache/` raises the cache count by one and leaves every other report field unchanged. |
| MediaUnused.FileEntryCounted | Console/Command/CatalogMediaUnused.php:140-153 | One more non-cache entry is appended to the file list. It raises the unused count by one exactly when its relative path is not in the gallery list, and leaves it unchanged exactly when it is. It adds its size to `bytesFreed` only when it is unused and `remove_unused` is set. |
| MediaUnused.RelativePathOfRootedEntry | Console/Command/CatalogMediaUnused.php:132 | For a pathname `<media>catalog/product` + suffix, where the root does not occur again in the suffix, the relative path is exactly the suffix. |
| MediaUnused.RepeatedRootIsRemovedEverywhere | Console/Command/CatalogMediaUnused.php:132 | An example, for the one root `/m/catalog/product` only: `str_replace` also removes a later repetition of the root inside the pathname: `root/x` + root + `/a.jpg` is compared as `/x/a.jpg`. |
| MediaUnused.SmallCatalogExample | Console/Command/CatalogMediaUnused.php:131-165 | With gallery `["/a.jpg"]` and files `a.jpg`, `b.jpg`, `cache/c.jpg` (10, 20 and 30 bytes), removing: the file list is `/a.jpg`, `/b.jpg`; one cache file; one unused file; 20 bytes freed; the summary says one removed. |
| Paths.StartsWith | Console/Command/CatalogMediaUnused.php:134 | `str_starts_with(s, prefix)` holds exactly when the prefix is no longer than the string and agrees with it at every position. |
| Paths.StripAll | Console/Command/CatalogMediaUnused.php:132 | `str_replace(root, '', s)` never lengthens the string, and leaves it unchanged for an empty search string. |
| Paths.StripAllWithoutOccurrence | Console/Command/CatalogMediaUnused.php:132 | When the root does not occur in the pathname, the pathname is returned unchanged. |
| Paths.StripLeadingNeedle | Console/Command/CatalogMediaUnused.php:132 | Root + suffix, with no occurrence of the root in the suffix, becomes exactly the suffix. |
| Paths.TrimTrailingSeparators | Model/GetDuplicates.php:19 | `rtrim(path, '/')` returns a prefix of the path that does not end in a separator, and everything it drops is a separator. |
| Paths.TrimIdempotent | Model/GetDuplicates.php:19 | Trimming twice equals trimming once, and an extra trailing separator does not change the trimmed root. |
| HashGroups.Merge | Model/GetDuplicates.php:22 | `array_merge_recursive` returns the union of the two key sets, and under every key of the first map its list is a prefix of the result's list. |
| HashGroups.MergeKeepsKeysAndPaths | Model/GetDuplicates.php:22 | `array_merge_recursive` keeps every key of both maps. Under a shared hash it concatenates the two path lists, first map first. Any other key keeps its own list. |
| HashGroups.MergeAssociative | Model/GetDuplicates.php:54 | Merging is associative, so merging sub-directory maps one after another may be regrouped. |
| HashGroups.MergeEmpty | Model/GetDuplicates.php:44 | The empty initial map is neutral for the merge on either side. |
| HashGroups.KeepGroups | Model/GetDuplicates.php:26-28 | The final `array_filter` keeps a hash exactly when its list has more than one path, and keeps that list unchanged. |
| HashGroups.GroupIsPathsUnder | Model/GetDuplicates.php:57-58 | In the reference grouping, the list under a hash is exactly the paths carrying that hash, in order, and the hash is a key exactly when that list is non-empty. |
| HashGroups.GroupAppend | Model/GetDuplicates.php:22 | Grouping a concatenation of (hash, path) lists equals merging the groupings of the two parts. |
| Duplicates.ScanDir | Model/GetDuplicates.php:38-42 | `scanDir` on something that is not a directory, or on a directory `opendir` cannot open, returns the empty map. |
| Duplicates.ScanEntries | Model/GetDuplicates.php:46-61 | The `readdir` loop only extends the map it builds: no key is lost, and the paths already filed under a key stay a prefix of that key's list. |
| Duplicates.CollectRoots | Model/GetDuplicates.php:18-24 | The loop over the roots only extends the map it builds, and leaves it unchanged when no root is a directory once trimmed. |
| Duplicates.Execute | Model/GetDuplicates.php:26-28 | Every group `execute` returns has more than one path. |
| Duplicates.ScanDirAsWrittenEmpty | Model/GetDuplicates.php:36-65 | As written, `scanDir` returns the empty map for every tree, path and recursion flag. |
| Duplicates.ExecuteAsWrittenEmpty | Model/GetDuplicates.php:14-29 | As written, `execute` returns the empty map for every filesystem, root list and recursion flag. |
| Duplicates.ScanDirIntendedGroupsVisits | Model/GetDuplicates.php:46-61 | The intended `scanDir` returns exactly the grouping by hash of the files the walk reaches. |
| Duplicates.CollectRootsIntendedGroupsVisits | Model/GetDuplicates.php:18-24 | The loop over the roots, in the intended variant, merges onto its starting map the grouping of all files reached from the directory roots, root by root. |
| Duplicates.ExecuteIntendedIsGroup | Model/GetDuplicates.php:14-29 | In the intended variant, `execute` equals the `array_filter` of the reference grouping of every file reached from the directory roots. |
| Duplicates.ExecuteIntendedGroups | Model/GetDuplicates.php:14-29 | In the intended variant, a hash is reported exactly when more than one reached file has it. Its group is the list of those files' paths in walk order. |
| Duplicates.DuplicatesReported | Model/GetDuplicates.php:18-28 | In the intended variant, two reached files with the same hash are both reported under that hash. |
| Duplicates.LoneFileNotReported | Model/GetDuplicates.php:26-28 | In the intended variant, a reached file whose hash no other reached file shares never produces a group. |
| Duplicates.DotEntriesSkipped | Model/GetDuplicates.php:46-49 | Entries named `.` or `..` contribute nothing and are never descended into: the `readdir` loop returns the same map once they are removed from the listing. This holds for both variants. |
| Duplicates.NonRecursiveVisitsDirectFiles | Model/GetDuplicates.php:53-58 | Without recursion, every reached file is a direct regular-file child (not `.`/`..`) of the directory. Subdirectories are neither entered nor hashed. |
| Duplicates.DirectFileReached | Model/GetDuplicates.php:46-58 | Every regular child of the listing that is not `.` or `..` is reached, with or without recursion. |
| Duplicates.FileReached | Model/GetDuplicates.php:46-58 | The walk misses no file. A file held at any depth, through readable non-dot subdirectories, is reached at its full path by the recursive walk. A direct file child is also reached by the non-recursive walk. |
| Duplicates.VisitedIsHeld | Model/GetDuplicates.php:46-58 | The recursive walk reaches nothing else. Every file it reaches is a regular file held below the directory, through readable non-dot subdirectories, at exactly its `Below` path and with its own contents. Together with `FileReached`, the walk reaches exactly the held files. |
| Duplicates.RootFileReached | Model/GetDuplicates.php:18-23 | A file held below any root that is a directory once trimmed is among the files reached from the root list. |
| Duplicates.HeldDuplicatesReported | Model/GetDuplicates.php:18-28 | In the intended variant, two files held at different paths below the roots, with equal hashes, are both reported under that hash. This is stated on the filesystem, not on the walk. |
| Duplicates.VisitsBelow | Model/GetDuplicates.php:51 | Every reached file's path is the scanned directory's path, a separator, and more. |
| Duplicates.NonDirectoryRootIgnored | Model/GetDuplicates.php:21-23 | Inserting a root that is not a directory after trimming, anywhere in the root list, does not change the result. |
| Duplicates.SeparatorOnlyRootIgnored | Model/GetDuplicates.php:19-21 | A root made only of separators trims to the empty path. `is_dir('')` is false, so that root contributes nothing. |
| Duplicates.TrailingSeparatorIgnored | Model/GetDuplicates.php:19 | Giving a root with an extra trailing separator does not change the result. |
| Duplicates.CrossRootDuplicate | Model/GetDuplicates.php:18-28 | Roots `/r1/` and `/r2` holding `x.jpg` and `y.jpg` with equal contents: the intended variant reports `[/r1/x.jpg, /r2/y.jpg]` under their hash, while the code as written reports nothing. |
| Duplicates.RepeatedRootReportsItself | Model/GetDuplicates.php:18-28 | An example: the roots `/r` and `/r/` scan the same directory twice, so the intended variant reports its lone `z.jpg` twice under one hash. |
| Duplicates.NonRecursiveIgnoresSubdirectory | Model/GetDuplicates.php:53-58 | `r/sub/z.jpg` and `r/z.jpg` with equal contents are paired by the recursive intended scan, while the non-recursive scan reports nothing. |

## Findings

| source | as written | input that shows it | evidently intended | confidence | as-written member | corrected member |
|---|---|---|---|---|---|---|
| Model/GetDuplicates.php:57-58 | Each file's hash is stored into a local `$files` that is never read. `$duplicates` starts empty and only receives merges of recursive calls, so every scan returns the empty map. | One directory holding two files with the same contents (or two roots with one such file each). | Append the path to the map that is returned: `$duplicates[$hash][] = $fullPath` | high (not executed) | Duplicates.ExecuteAsWrittenEmpty | Duplicates.ExecuteIntendedGroups |

## Left out

- The gallery query (`getMediaGalleryPaths`) and `Helper/CatalogMediaHelper.php` are database and framework wrappers. The gallery list and the media directory are parameters.
- `registration.php`, `configure` (option names, aliases, help text) and the text of every `writeln` are left out. Only the figures the lines carry are modelled.
- The real directory walk is left out: `RecursiveDirectoryIterator`, `opendir`/`readdir`, iteration order, symbolic links and symlink cycles. The unused-media command takes the yielded entries as a sequence. The duplicate finder takes a map from root path to a finite tree, and that map is not checked to be consistent with nested paths.
- `is_dir` on the product-media root is a boolean parameter.
- MediaUnused.Scan models only walks that finish. The iterator is built without `CATCH_GET_CHILD`, so an unreadable directory makes `RecursiveDirectoryIterator` throw `UnexpectedValueException`. The command then stops without printing a report, and the model has no outcome for that case.
- md5 (`hash_file`) is a function parameter. A `hash_file` failure (it returns `false`) is not modelled: every regular file has readable contents.
- A `filesize` failure, where `false` counts as 0, is not modelled: every entry carries its size.
- `in_array` is modelled as exact string equality. PHP's loose comparison is left out; it only matters for numeric-looking strings.
- `$bytesFreed` is a 64-bit PHP integer that turns into a float past `PHP_INT_MAX`. `Tally.bytesFreed` is an unbounded natural number, so that overflow is not modelled. It needs more than 8 EiB of unused files.
- The printed "Disk space freed" figure `round($bytesFreed / 1024 / 1024)` is floating point. Only the byte total is modelled.
- PHP arrays keep key insertion order, while Dafny maps are unordered. The order of keys in the duplicate report is not modelled; the order of paths inside each group is.
- Nothing is lost at the recursive `scanDir` call, which passes no recursion flag, so it uses the default `true`. The model passes `true` too. This is only reached when recursion is on.
