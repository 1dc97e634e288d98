/** `GetDuplicates`: walks one or more directories, files every regular file
    under the md5 of its contents, and keeps the hashes shared by more than one
    path.

    The filesystem is a map from a directory path to the tree found there; a
    directory's children are its `readdir` listing, in listing order, and may
    include entries named `.` and `..`. md5 is the parameter `hash`.

    As written, `scanDir` stores each file's hash into a local `$files` that is
    never read, so nothing is ever filed: `Variant.AsWritten` models that code,
    and `Variant.Intended` files the path under its hash instead, which is not
    what the source does. */
module Duplicates {
  import opened Paths
  import opened HashGroups

  newtype byte = x: int | 0 <= x < 256

  /** A directory (`readable` is false when `opendir` fails on it), a regular
      file with its contents, or anything that is neither (`is_dir` and
      `is_file` both false). */
  datatype Node =
    | Dir(name: string, readable: bool, children: seq<Node>)
    | File(name: string, content: seq<byte>)
    | Other(name: string)

  type FileSystem = map<string, Node>

  /** Which body `scanDir` runs for a regular file. */
  datatype Variant = AsWritten | Intended

  predicate IsDot(name: string) {
    name == "." || name == ".."
  }

  /** `$path . DIRECTORY_SEPARATOR . $fileName` */
  function ChildPath(path: string, name: string): string {
    path + [Separator] + name
  }

  /** `is_dir($path)`; `is_dir('')` is false, so a root made only of
      separators, which `rtrim` turns into the empty string, is never scanned. */
  predicate IsDir(fs: FileSystem, path: string) {
    path != "" && path in fs && fs[path].Dir?
  }

  /** `scanDir($path, $isRecursive)` on the node found at `path`. */
  function ScanDir(v: Variant, hash: seq<byte> -> string, path: string, node: Node, recursive: bool): (r: Groups)
    ensures !node.Dir? ==> r == map[]
    ensures node.Dir? && !node.readable ==> r == map[]
    decreases node
  {
    match node
    case Dir(_, readable, children) =>
      if !readable then map[]
      else ScanEntries(v, hash, path, children, recursive, map[])
    case _ => map[]
  }

  /** The `readdir` loop of `scanDir`, over the entries not yet read, with the
      map built so far. */
  function ScanEntries(v: Variant, hash: seq<byte> -> string, path: string, entries: seq<Node>,
                       recursive: bool, acc: Groups): (r: Groups)
    ensures acc.Keys <= r.Keys
    ensures forall k | k in acc :: acc[k] <= r[k]
    decreases entries
  {
    if entries == [] then acc
    else
      var c := entries[0];
      var acc' :=
        if IsDot(c.name) then acc
        else
          var full := ChildPath(path, c.name);
          if c.Dir? && recursive then Merge(acc, ScanDir(v, hash, full, c, true))
          else if c.File? then
            match v
            case AsWritten => acc
            case Intended => Merge(acc, map[hash(c.content) := [full]])
          else acc;
      ScanEntries(v, hash, path, entries[1..], recursive, acc')
  }

  /** The `foreach` over the roots: each root is trimmed, and only directories
      are scanned and merged in. */
  function CollectRoots(v: Variant, hash: seq<byte> -> string, fs: FileSystem, roots: seq<string>,
                        recursive: bool, acc: Groups): (r: Groups)
    ensures acc.Keys <= r.Keys
    ensures forall k | k in acc :: acc[k] <= r[k]
    ensures (forall j | 0 <= j < |roots| :: !IsDir(fs, TrimTrailingSeparators(roots[j]))) ==> r == acc
    decreases |roots|
  {
    if roots == [] then acc
    else
      var p := TrimTrailingSeparators(roots[0]);
      var acc' := if IsDir(fs, p) then Merge(acc, ScanDir(v, hash, p, fs[p], recursive)) else acc;
      CollectRoots(v, hash, fs, roots[1..], recursive, acc')
  }

  /** `execute($paths, $isRecursive)` */
  function Execute(v: Variant, hash: seq<byte> -> string, fs: FileSystem, roots: seq<string>, recursive: bool): (r: Groups)
    ensures forall k | k in r :: |r[k]| > 1
  {
    KeepGroups(CollectRoots(v, hash, fs, roots, recursive, map[]))
  }

  // ----- The source as written finds nothing -----

  lemma {:induction false} ScanDirAsWrittenEmpty(hash: seq<byte> -> string, path: string, node: Node, recursive: bool)
    ensures ScanDir(AsWritten, hash, path, node, recursive) == map[]
    decreases node
  {
    if node.Dir? && node.readable {
      ScanEntriesAsWrittenEmpty(hash, path, node.children, recursive);
    }
  }

  lemma {:induction false} ScanEntriesAsWrittenEmpty(hash: seq<byte> -> string, path: string, entries: seq<Node>, recursive: bool)
    ensures ScanEntries(AsWritten, hash, path, entries, recursive, map[]) == map[]
    decreases entries
  {
    if entries != [] {
      var c := entries[0];
      if !IsDot(c.name) && c.Dir? && recursive {
        ScanDirAsWrittenEmpty(hash, ChildPath(path, c.name), c, true);
        MergeEmpty(map[]);
      }
      ScanEntriesAsWrittenEmpty(hash, path, entries[1..], recursive);
    }
  }

  lemma {:induction false} CollectRootsAsWrittenEmpty(hash: seq<byte> -> string, fs: FileSystem, roots: seq<string>, recursive: bool)
    ensures CollectRoots(AsWritten, hash, fs, roots, recursive, map[]) == map[]
    decreases |roots|
  {
    if roots != [] {
      var p := TrimTrailingSeparators(roots[0]);
      if IsDir(fs, p) {
        ScanDirAsWrittenEmpty(hash, p, fs[p], recursive);
        MergeEmpty(map[]);
      }
      CollectRootsAsWrittenEmpty(hash, fs, roots[1..], recursive);
    }
  }

  /** As written, `execute` reports no duplicates for any filesystem and roots. */
  lemma ExecuteAsWrittenEmpty(hash: seq<byte> -> string, fs: FileSystem, roots: seq<string>, recursive: bool)
    ensures Execute(AsWritten, hash, fs, roots, recursive) == map[]
  {
    CollectRootsAsWrittenEmpty(hash, fs, roots, recursive);
  }

  // ----- The intended variant, against an independent walk-then-group definition -----

  /** A regular file reached by the walk: its full path and its contents. */
  datatype Visit = Visit(path: string, content: seq<byte>)

  /** The files `scanDir` reaches below the node at `path`, in walk order. */
  function Visited(path: string, node: Node, recursive: bool): seq<Visit>
    decreases node
  {
    match node
    case Dir(_, readable, children) =>
      if !readable then [] else VisitedEntries(path, children, recursive)
    case _ => []
  }

  function VisitedEntries(path: string, entries: seq<Node>, recursive: bool): seq<Visit>
    decreases entries
  {
    if entries == [] then []
    else
      var c := entries[0];
      var here :=
        if IsDot(c.name) then []
        else
          var full := ChildPath(path, c.name);
          if c.Dir? && recursive then Visited(full, c, true)
          else if c.File? then [Visit(full, c.content)]
          else [];
      here + VisitedEntries(path, entries[1..], recursive)
  }

  /** The files reached from every root that is a directory once trimmed, root by root. */
  function VisitedRoots(fs: FileSystem, roots: seq<string>, recursive: bool): seq<Visit>
    decreases |roots|
  {
    if roots == [] then []
    else
      var p := TrimTrailingSeparators(roots[0]);
      (if IsDir(fs, p) then Visited(p, fs[p], recursive) else []) + VisitedRoots(fs, roots[1..], recursive)
  }

  /** Each visit as a (hash of its contents, path) pair. */
  function Keyed(hash: seq<byte> -> string, vs: seq<Visit>): (r: seq<(string, string)>)
    ensures |r| == |vs|
    ensures forall i | 0 <= i < |vs| :: r[i] == (hash(vs[i].content), vs[i].path)
    decreases |vs|
  {
    if vs == [] then [] else [(hash(vs[0].content), vs[0].path)] + Keyed(hash, vs[1..])
  }

  lemma KeyedAppend(hash: seq<byte> -> string, a: seq<Visit>, b: seq<Visit>)
    ensures Keyed(hash, a + b) == Keyed(hash, a) + Keyed(hash, b)
  {
  }

  /** Merging the group of the next entry's visits after `acc`, then the rest,
      is merging the group of all those visits after `acc`. */
  lemma MergeVisitGroups(hash: seq<byte> -> string, acc: Groups, here: seq<Visit>, rest: seq<Visit>)
    ensures Merge(Merge(acc, Group(Keyed(hash, here))), Group(Keyed(hash, rest)))
         == Merge(acc, Group(Keyed(hash, here + rest)))
  {
    MergeAssociative(acc, Group(Keyed(hash, here)), Group(Keyed(hash, rest)));
    KeyedAppend(hash, here, rest);
    GroupAppend(Keyed(hash, here), Keyed(hash, rest));
  }

  /** The intended `scanDir` groups exactly the files the walk reaches. */
  lemma {:induction false} ScanDirIntendedGroupsVisits(hash: seq<byte> -> string, path: string, node: Node, recursive: bool)
    ensures ScanDir(Intended, hash, path, node, recursive) == Group(Keyed(hash, Visited(path, node, recursive)))
    decreases node
  {
    if node.Dir? && node.readable {
      ScanEntriesIntendedGroupsVisits(hash, path, node.children, recursive, map[]);
      MergeEmpty(Group(Keyed(hash, Visited(path, node, recursive))));
    }
  }

  lemma {:induction false} ScanEntriesIntendedGroupsVisits(hash: seq<byte> -> string, path: string, entries: seq<Node>,
                                                           recursive: bool, acc: Groups)
    ensures ScanEntries(Intended, hash, path, entries, recursive, acc)
         == Merge(acc, Group(Keyed(hash, VisitedEntries(path, entries, recursive))))
    decreases entries
  {
    if entries == [] {
      MergeEmpty(acc);
    } else {
      var c := entries[0];
      var rest := entries[1..];
      var full := ChildPath(path, c.name);
      var here :=
        if IsDot(c.name) then []
        else if c.Dir? && recursive then Visited(full, c, true)
        else if c.File? then [Visit(full, c.content)]
        else [];
      assert VisitedEntries(path, entries, recursive) == here + VisitedEntries(path, rest, recursive);
      var acc' :=
        if IsDot(c.name) then acc
        else if c.Dir? && recursive then Merge(acc, ScanDir(Intended, hash, full, c, true))
        else if c.File? then Merge(acc, map[hash(c.content) := [full]])
        else acc;
      assert acc' == Merge(acc, Group(Keyed(hash, here))) by {
        if IsDot(c.name) || !((c.Dir? && recursive) || c.File?) {
          MergeEmpty(acc);
        } else if c.Dir? && recursive {
          ScanDirIntendedGroupsVisits(hash, full, c, true);
        } else {
          assert Keyed(hash, here) == [(hash(c.content), full)];
          assert Keyed(hash, here)[1..] == [];
          MergeEmpty(map[hash(c.content) := [full]]);
        }
      }
      ScanEntriesIntendedGroupsVisits(hash, path, rest, recursive, acc');
      MergeVisitGroups(hash, acc, here, VisitedEntries(path, rest, recursive));
    }
  }

  lemma {:induction false} CollectRootsIntendedGroupsVisits(hash: seq<byte> -> string, fs: FileSystem, roots: seq<string>,
                                                            recursive: bool, acc: Groups)
    ensures CollectRoots(Intended, hash, fs, roots, recursive, acc)
         == Merge(acc, Group(Keyed(hash, VisitedRoots(fs, roots, recursive))))
    decreases |roots|
  {
    if roots == [] {
      MergeEmpty(acc);
    } else {
      var p := TrimTrailingSeparators(roots[0]);
      var here := if IsDir(fs, p) then Visited(p, fs[p], recursive) else [];
      var acc' := if IsDir(fs, p) then Merge(acc, ScanDir(Intended, hash, p, fs[p], recursive)) else acc;
      assert acc' == Merge(acc, Group(Keyed(hash, here))) by {
        if IsDir(fs, p) {
          ScanDirIntendedGroupsVisits(hash, p, fs[p], recursive);
        } else {
          MergeEmpty(acc);
        }
      }
      CollectRootsIntendedGroupsVisits(hash, fs, roots[1..], recursive, acc');
      MergeVisitGroups(hash, acc, here, VisitedRoots(fs, roots[1..], recursive));
    }
  }

  /** The intended `execute`: a hash is reported exactly when more than one
      reached file has it, and its group lists those files' paths in walk order. */
  lemma ExecuteIntendedGroups(hash: seq<byte> -> string, fs: FileSystem, roots: seq<string>, recursive: bool)
    ensures var pairs := Keyed(hash, VisitedRoots(fs, roots, recursive));
            var r := Execute(Intended, hash, fs, roots, recursive);
      && (forall k :: k in r <==> |PathsUnder(pairs, k)| > 1)
      && (forall k | k in r :: r[k] == PathsUnder(pairs, k))
  {
    ExecuteIntendedIsGroup(hash, fs, roots, recursive);
    KeepGroupsOfGroup(Keyed(hash, VisitedRoots(fs, roots, recursive)));
  }

  /** The intended `execute` is the filtered grouping of every reached file. */
  lemma ExecuteIntendedIsGroup(hash: seq<byte> -> string, fs: FileSystem, roots: seq<string>, recursive: bool)
    ensures Execute(Intended, hash, fs, roots, recursive) == KeepGroups(Group(Keyed(hash, VisitedRoots(fs, roots, recursive))))
  {
    var pairs := Keyed(hash, VisitedRoots(fs, roots, recursive));
    CollectRootsIntendedGroupsVisits(hash, fs, roots, recursive, map[]);
    MergeEmpty(Group(pairs));
  }

  /** Two reached files with the same hash are reported together under it. */
  lemma DuplicatesReported(hash: seq<byte> -> string, fs: FileSystem, roots: seq<string>, recursive: bool, i: nat, j: nat)
    requires var vs := VisitedRoots(fs, roots, recursive); i < j < |vs| && hash(vs[i].content) == hash(vs[j].content)
    ensures var vs := VisitedRoots(fs, roots, recursive);
            var r := Execute(Intended, hash, fs, roots, recursive);
            var k := hash(vs[i].content);
      k in r && vs[i].path in r[k] && vs[j].path in r[k]
  {
    var pairs := Keyed(hash, VisitedRoots(fs, roots, recursive));
    ExecuteIntendedGroups(hash, fs, roots, recursive);
    PathsUnderTwo(pairs, i, j);
    PathsUnderContains(pairs, i);
    PathsUnderContains(pairs, j);
  }

  /** A reached file whose hash no other reached file has is never reported. */
  lemma LoneFileNotReported(hash: seq<byte> -> string, fs: FileSystem, roots: seq<string>, recursive: bool, i: nat)
    requires var vs := VisitedRoots(fs, roots, recursive);
      && i < |vs|
      && forall j | 0 <= j < |vs| && j != i :: hash(vs[j].content) != hash(vs[i].content)
    ensures hash(VisitedRoots(fs, roots, recursive)[i].content) !in Execute(Intended, hash, fs, roots, recursive)
  {
    var pairs := Keyed(hash, VisitedRoots(fs, roots, recursive));
    ExecuteIntendedGroups(hash, fs, roots, recursive);
    PathsUnderLone(pairs, i);
  }

  // ----- Traversal properties, for both variants -----

  function WithoutDots(entries: seq<Node>): (r: seq<Node>)
    ensures forall c | c in r :: c in entries && !IsDot(c.name)
    decreases |entries|
  {
    if entries == [] then []
    else (if IsDot(entries[0].name) then [] else [entries[0]]) + WithoutDots(entries[1..])
  }

  /** Entries named `.` and `..` are skipped whatever they hold: the loop gives
      the same map once they are removed from the listing. */
  lemma {:induction false} DotEntriesSkipped(v: Variant, hash: seq<byte> -> string, path: string, entries: seq<Node>,
                                             recursive: bool, acc: Groups)
    ensures ScanEntries(v, hash, path, entries, recursive, acc)
         == ScanEntries(v, hash, path, WithoutDots(entries), recursive, acc)
    decreases |entries|
  {
    if entries != [] {
      var c := entries[0];
      if IsDot(c.name) {
        assert WithoutDots(entries) == WithoutDots(entries[1..]);
        DotEntriesSkipped(v, hash, path, entries[1..], recursive, acc);
      } else {
        var w := WithoutDots(entries);
        assert w[0] == c && w[1..] == WithoutDots(entries[1..]);
        var full := ChildPath(path, c.name);
        var acc' :=
          if c.Dir? && recursive then Merge(acc, ScanDir(v, hash, full, c, true))
          else if c.File? then
            match v
            case AsWritten => acc
            case Intended => Merge(acc, map[hash(c.content) := [full]])
          else acc;
        DotEntriesSkipped(v, hash, path, entries[1..], recursive, acc');
      }
    }
  }

  /** Without recursion every reached file is a direct regular-file child of the
      directory: subdirectories are neither entered nor hashed. */
  lemma NonRecursiveVisitsDirectFiles(path: string, node: Node)
    ensures forall w | w in Visited(path, node, false) ::
      node.Dir? && exists c | c in node.children :: c.File? && !IsDot(c.name) && w == Visit(ChildPath(path, c.name), c.content)
  {
    if node.Dir? && node.readable {
      NonRecursiveEntriesDirectFiles(path, node.children);
    }
  }

  lemma {:induction false} NonRecursiveEntriesDirectFiles(path: string, entries: seq<Node>)
    ensures forall w | w in VisitedEntries(path, entries, false) ::
      exists c | c in entries :: c.File? && !IsDot(c.name) && w == Visit(ChildPath(path, c.name), c.content)
    decreases |entries|
  {
    if entries != [] {
      NonRecursiveEntriesDirectFiles(path, entries[1..]);
      forall w | w in VisitedEntries(path, entries, false)
        ensures exists c | c in entries :: c.File? && !IsDot(c.name) && w == Visit(ChildPath(path, c.name), c.content)
      {
        var c := entries[0];
        if w in VisitedEntries(path, entries[1..], false) {
          var c' :| c' in entries[1..] && c'.File? && !IsDot(c'.name) && w == Visit(ChildPath(path, c'.name), c'.content);
          assert c' in entries;
        } else {
          assert c in entries;
        }
      }
    }
  }

  lemma StartsWithTransitive(s: string, t: string, u: string)
    requires StartsWith(s, t) && StartsWith(t, u)
    ensures StartsWith(s, u)
  {
  }

  /** Every reached file lies below the directory it was reached from: its path
      is that directory's path, a separator, and more. */
  lemma {:induction false} VisitsBelow(path: string, node: Node, recursive: bool)
    ensures forall w | w in Visited(path, node, recursive) :: StartsWith(w.path, path + [Separator])
    decreases node
  {
    if node.Dir? && node.readable {
      VisitsBelowEntries(path, node.children, recursive);
    }
  }

  lemma {:induction false} VisitsBelowEntries(path: string, entries: seq<Node>, recursive: bool)
    ensures forall w | w in VisitedEntries(path, entries, recursive) :: StartsWith(w.path, path + [Separator])
    decreases entries
  {
    if entries != [] {
      var c := entries[0];
      var full := ChildPath(path, c.name);
      VisitsBelowEntries(path, entries[1..], recursive);
      assert StartsWith(full, path + [Separator]) by {
        assert full[..|path| + 1] == path + [Separator];
      }
      if !IsDot(c.name) && c.Dir? && recursive {
        VisitsBelow(full, c, true);
        forall w | w in Visited(full, c, true) ensures StartsWith(w.path, path + [Separator]) {
          assert StartsWith(full + [Separator], path + [Separator]) by {
            assert (full + [Separator])[..|path| + 1] == path + [Separator];
          }
          StartsWithTransitive(w.path, full + [Separator], path + [Separator]);
        }
      }
    }
  }

  /** A regular, non-dot child of the listing is reached, with or without recursion. */
  lemma {:induction false} DirectFileReached(path: string, entries: seq<Node>, recursive: bool, i: nat)
    requires i < |entries| && entries[i].File? && !IsDot(entries[i].name)
    ensures Visit(ChildPath(path, entries[i].name), entries[i].content) in VisitedEntries(path, entries, recursive)
    decreases |entries|
  {
    if i > 0 {
      DirectFileReached(path, entries[1..], recursive, i - 1);
    }
  }

  /** With recursion, everything reached inside a non-dot subdirectory of the
      listing is reached from the listing too. */
  lemma {:induction false} SubdirectoryFilesReached(path: string, entries: seq<Node>, i: nat, w: Visit)
    requires i < |entries| && entries[i].Dir? && !IsDot(entries[i].name)
    requires w in Visited(ChildPath(path, entries[i].name), entries[i], true)
    ensures w in VisitedEntries(path, entries, true)
    decreases |entries|
  {
    if i > 0 {
      SubdirectoryFilesReached(path, entries[1..], i - 1, w);
    }
  }

  /** `node` is a readable directory that holds a regular file with `content`
      at the relative path `names`, through readable non-dot subdirectories. */
  predicate HoldsFile(node: Node, names: seq<string>, content: seq<byte>)
    decreases node
  {
    && node.Dir? && node.readable && names != [] && !IsDot(names[0])
    && exists i | 0 <= i < |node.children| ::
         && node.children[i].name == names[0]
         && if |names| == 1 then node.children[i].File? && node.children[i].content == content
            else HoldsFile(node.children[i], names[1..], content)
  }

  /** The path of the file at the relative path `names` below `path`. */
  function Below(path: string, names: seq<string>): string
    decreases |names|
  {
    if names == [] then path else Below(ChildPath(path, names[0]), names[1..])
  }

  /** The walk misses no file: a file held at any depth is reached by the
      recursive walk, and a direct file child by the non-recursive one too. */
  lemma {:induction false} FileReached(path: string, node: Node, names: seq<string>, content: seq<byte>, recursive: bool)
    requires HoldsFile(node, names, content)
    requires recursive || |names| == 1
    ensures Visit(Below(path, names), content) in Visited(path, node, recursive)
    decreases node
  {
    var i :| 0 <= i < |node.children| && node.children[i].name == names[0]
      && if |names| == 1 then node.children[i].File? && node.children[i].content == content
         else HoldsFile(node.children[i], names[1..], content);
    var c := node.children[i];
    var full := ChildPath(path, names[0]);
    assert Below(path, names) == Below(full, names[1..]);
    if |names| == 1 {
      assert Below(full, names[1..]) == full;
      DirectFileReached(path, node.children, recursive, i);
    } else {
      FileReached(full, c, names[1..], content, true);
      SubdirectoryFilesReached(path, node.children, i, Visit(Below(path, names), content));
    }
  }

  // ----- Roots -----

  lemma {:induction false} CollectRootsAppend(v: Variant, hash: seq<byte> -> string, fs: FileSystem, a: seq<string>, b: seq<string>,
                                              recursive: bool, acc: Groups)
    ensures CollectRoots(v, hash, fs, a + b, recursive, acc)
         == CollectRoots(v, hash, fs, b, recursive, CollectRoots(v, hash, fs, a, recursive, acc))
    decreases |a|
  {
    if a == [] {
      assert a + b == b;
    } else {
      assert (a + b)[0] == a[0] && (a + b)[1..] == a[1..] + b;
      var p := TrimTrailingSeparators(a[0]);
      var acc' := if IsDir(fs, p) then Merge(acc, ScanDir(v, hash, p, fs[p], recursive)) else acc;
      CollectRootsAppend(v, hash, fs, a[1..], b, recursive, acc');
    }
  }

  /** A root that is not a directory once trimmed contributes nothing. */
  lemma NonDirectoryRootIgnored(v: Variant, hash: seq<byte> -> string, fs: FileSystem,
                                before: seq<string>, p: string, after: seq<string>, recursive: bool)
    requires !IsDir(fs, TrimTrailingSeparators(p))
    ensures Execute(v, hash, fs, before + [p] + after, recursive) == Execute(v, hash, fs, before + after, recursive)
  {
    var acc := CollectRoots(v, hash, fs, before, recursive, map[]);
    CollectRootsAppend(v, hash, fs, before + [p], after, recursive, map[]);
    CollectRootsAppend(v, hash, fs, before, [p], recursive, map[]);
    CollectRootsAppend(v, hash, fs, before, after, recursive, map[]);
    assert CollectRoots(v, hash, fs, [p], recursive, acc) == acc;
  }

  /** A root made only of separators (`/`, `///`, or the empty string) trims to
      the empty path, which is not a directory, so it contributes nothing. */
  lemma SeparatorOnlyRootIgnored(v: Variant, hash: seq<byte> -> string, fs: FileSystem,
                                 before: seq<string>, p: string, after: seq<string>, recursive: bool)
    requires forall i | 0 <= i < |p| :: p[i] == Separator
    ensures Execute(v, hash, fs, before + [p] + after, recursive) == Execute(v, hash, fs, before + after, recursive)
  {
    assert TrimTrailingSeparators(p) == [];
    NonDirectoryRootIgnored(v, hash, fs, before, p, after, recursive);
  }

  /** The walk reaches nothing else: every file the recursive walk reaches is a
      file held below the node, at its `Below` path, with its own contents. */
  lemma {:induction false} VisitedIsHeld(path: string, node: Node, w: Visit)
    requires w in Visited(path, node, true)
    ensures exists names :: HoldsFile(node, names, w.content) && w.path == Below(path, names)
    decreases node, 1
  {
    VisitedEntriesAreHeld(path, node, node.children, w);
  }

  lemma {:induction false} VisitedEntriesAreHeld(path: string, node: Node, entries: seq<Node>, w: Visit)
    requires node.Dir? && node.readable
    requires forall c | c in entries :: c in node.children
    requires w in VisitedEntries(path, entries, true)
    ensures exists names :: HoldsFile(node, names, w.content) && w.path == Below(path, names)
    decreases node, 0, |entries|
  {
    var c := entries[0];
    var full := ChildPath(path, c.name);
    if w in VisitedEntries(path, entries[1..], true) {
      VisitedEntriesAreHeld(path, node, entries[1..], w);
    } else {
      assert c in node.children;
      var i :| 0 <= i < |node.children| && node.children[i] == c;
      if c.Dir? {
        VisitedIsHeld(full, c, w);
        var rest :| HoldsFile(c, rest, w.content) && w.path == Below(full, rest);
        var names := [c.name] + rest;
        assert names[1..] == rest;
        assert Below(path, names) == Below(full, rest);
        assert HoldsFile(node, names, w.content);
      } else {
        var names := [c.name];
        assert Below(path, names) == Below(full, []);
        assert HoldsFile(node, names, w.content);
      }
    }
  }

  /** A file held below a root that is a directory once trimmed is reached. */
  lemma {:induction false} RootFileReached(fs: FileSystem, roots: seq<string>, j: nat, names: seq<string>,
                                           content: seq<byte>, recursive: bool)
    requires j < |roots|
    requires var p := TrimTrailingSeparators(roots[j]); IsDir(fs, p) && HoldsFile(fs[p], names, content)
    requires recursive || |names| == 1
    ensures Visit(Below(TrimTrailingSeparators(roots[j]), names), content) in VisitedRoots(fs, roots, recursive)
    decreases |roots|
  {
    if j == 0 {
      var p := TrimTrailingSeparators(roots[0]);
      FileReached(p, fs[p], names, content, recursive);
    } else {
      RootFileReached(fs, roots[1..], j - 1, names, content, recursive);
    }
  }

  /** The intended report, stated on the filesystem rather than on the walk:
      two files at different paths below the roots, with equal hashes, are
      both listed under that hash. */
  lemma HeldDuplicatesReported(hash: seq<byte> -> string, fs: FileSystem, roots: seq<string>, recursive: bool,
                               j1: nat, names1: seq<string>, content1: seq<byte>,
                               j2: nat, names2: seq<string>, content2: seq<byte>)
    requires j1 < |roots| && j2 < |roots|
    requires var p := TrimTrailingSeparators(roots[j1]); IsDir(fs, p) && HoldsFile(fs[p], names1, content1)
    requires var p := TrimTrailingSeparators(roots[j2]); IsDir(fs, p) && HoldsFile(fs[p], names2, content2)
    requires recursive || (|names1| == 1 && |names2| == 1)
    requires Below(TrimTrailingSeparators(roots[j1]), names1) != Below(TrimTrailingSeparators(roots[j2]), names2)
    requires hash(content1) == hash(content2)
    ensures var r := Execute(Intended, hash, fs, roots, recursive);
      && hash(content1) in r
      && Below(TrimTrailingSeparators(roots[j1]), names1) in r[hash(content1)]
      && Below(TrimTrailingSeparators(roots[j2]), names2) in r[hash(content1)]
  {
    RootFileReached(fs, roots, j1, names1, content1, recursive);
    RootFileReached(fs, roots, j2, names2, content2, recursive);
    ReachedDuplicatesReported(hash, fs, roots, recursive,
                              Visit(Below(TrimTrailingSeparators(roots[j1]), names1), content1),
                              Visit(Below(TrimTrailingSeparators(roots[j2]), names2), content2));
  }

  /** Two reached files at different paths with equal hashes are both reported. */
  lemma ReachedDuplicatesReported(hash: seq<byte> -> string, fs: FileSystem, roots: seq<string>, recursive: bool,
                                  w1: Visit, w2: Visit)
    requires w1 in VisitedRoots(fs, roots, recursive) && w2 in VisitedRoots(fs, roots, recursive)
    requires w1.path != w2.path && hash(w1.content) == hash(w2.content)
    ensures var r := Execute(Intended, hash, fs, roots, recursive);
      hash(w1.content) in r && w1.path in r[hash(w1.content)] && w2.path in r[hash(w1.content)]
  {
    var vs := VisitedRoots(fs, roots, recursive);
    var i1 :| 0 <= i1 < |vs| && vs[i1] == w1;
    var i2 :| 0 <= i2 < |vs| && vs[i2] == w2;
    if i1 < i2 {
      DuplicatesReported(hash, fs, roots, recursive, i1, i2);
    } else {
      DuplicatesReported(hash, fs, roots, recursive, i2, i1);
    }
  }

  /** A trailing separator on a root makes no difference. */
  lemma TrailingSeparatorIgnored(v: Variant, hash: seq<byte> -> string, fs: FileSystem,
                                 before: seq<string>, p: string, after: seq<string>, recursive: bool)
    ensures Execute(v, hash, fs, before + [p + [Separator]] + after, recursive)
         == Execute(v, hash, fs, before + [p] + after, recursive)
  {
    var acc := CollectRoots(v, hash, fs, before, recursive, map[]);
    CollectRootsAppend(v, hash, fs, before + [p + [Separator]], after, recursive, map[]);
    CollectRootsAppend(v, hash, fs, before, [p + [Separator]], recursive, map[]);
    CollectRootsAppend(v, hash, fs, before + [p], after, recursive, map[]);
    CollectRootsAppend(v, hash, fs, before, [p], recursive, map[]);
    TrimIdempotent(p);
    SameTrimSameRoot(v, hash, fs, p + [Separator], p, recursive, acc);
  }

  /** Two roots that trim to the same path are scanned alike. */
  lemma SameTrimSameRoot(v: Variant, hash: seq<byte> -> string, fs: FileSystem, a: string, b: string,
                         recursive: bool, acc: Groups)
    requires TrimTrailingSeparators(a) == TrimTrailingSeparators(b)
    ensures CollectRoots(v, hash, fs, [a], recursive, acc) == CollectRoots(v, hash, fs, [b], recursive, acc)
  {
    assert [a][1..] == [] && [b][1..] == [];
  }

  // ----- Examples -----

  lemma SingleFileVisited(path: string, f: Node, recursive: bool)
    requires f.File? && !IsDot(f.name)
    ensures VisitedEntries(path, [f], recursive) == [Visit(ChildPath(path, f.name), f.content)]
  {
  }

  /** Reporting from a list of reached files with exactly two entries that share a hash. */
  lemma TwoVisitsOneGroup(hash: seq<byte> -> string, fs: FileSystem, roots: seq<string>, recursive: bool,
                          p: string, q: string, content: seq<byte>)
    requires VisitedRoots(fs, roots, recursive) == [Visit(p, content), Visit(q, content)]
    ensures Execute(Intended, hash, fs, roots, recursive) == map[hash(content) := [p, q]]
  {
    var k := hash(content);
    assert Keyed(hash, VisitedRoots(fs, roots, recursive)) == [(k, p), (k, q)];
    ExecuteIntendedIsGroup(hash, fs, roots, recursive);
    KeepPairGroup(k, p, q);
  }

  /** `root1/x.jpg` and `root2/y.jpg` with the same contents, the first root given
      with a trailing separator: the intended variant reports both paths under
      one hash, while the source as written reports nothing. */
  lemma CrossRootDuplicate(hash: seq<byte> -> string, content: seq<byte>)
    ensures var fs := map["/r1" := Dir("r1", true, [File("x.jpg", content)]),
                          "/r2" := Dir("r2", true, [File("y.jpg", content)])];
            var roots := ["/r1/", "/r2"];
      && Execute(Intended, hash, fs, roots, true) == map[hash(content) := ["/r1/x.jpg", "/r2/y.jpg"]]
      && Execute(AsWritten, hash, fs, roots, true) == map[]
  {
    var fs := map["/r1" := Dir("r1", true, [File("x.jpg", content)]),
                  "/r2" := Dir("r2", true, [File("y.jpg", content)])];
    var roots := ["/r1/", "/r2"];
    assert TrimTrailingSeparators("/r1/") == "/r1" by {
      assert "/r1/"[..3] == "/r1";
    }
    assert TrimTrailingSeparators("/r2") == "/r2";
    assert Visited("/r1", fs["/r1"], true) == [Visit("/r1/x.jpg", content)] by {
      assert ChildPath("/r1", "x.jpg") == "/r1/x.jpg";
      SingleFileVisited("/r1", File("x.jpg", content), true);
    }
    assert Visited("/r2", fs["/r2"], true) == [Visit("/r2/y.jpg", content)] by {
      assert ChildPath("/r2", "y.jpg") == "/r2/y.jpg";
      SingleFileVisited("/r2", File("y.jpg", content), true);
    }
    assert roots[1..] == ["/r2"] && roots[1..][1..] == [];
    assert VisitedRoots(fs, roots, true) == [Visit("/r1/x.jpg", content), Visit("/r2/y.jpg", content)];
    TwoVisitsOneGroup(hash, fs, roots, true, "/r1/x.jpg", "/r2/y.jpg", content);
    ExecuteAsWrittenEmpty(hash, fs, roots, true);
  }

  /** `root/sub/z.jpg` and `root/z.jpg` with the same contents: the recursive
      intended scan pairs them, the non-recursive one sees only `root/z.jpg`
      and reports nothing. */
  lemma NonRecursiveIgnoresSubdirectory(hash: seq<byte> -> string, content: seq<byte>)
    ensures var fs := map["/r" := Dir("r", true, [Dir("sub", true, [File("z.jpg", content)]), File("z.jpg", content)])];
      && Execute(Intended, hash, fs, ["/r"], true) == map[hash(content) := ["/r/sub/z.jpg", "/r/z.jpg"]]
      && Execute(Intended, hash, fs, ["/r"], false) == map[]
  {
    var sub := Dir("sub", true, [File("z.jpg", content)]);
    var top := File("z.jpg", content);
    var fs := map["/r" := Dir("r", true, [sub, top])];
    assert TrimTrailingSeparators("/r") == "/r";
    assert ChildPath("/r", "sub") == "/r/sub";
    assert ChildPath("/r/sub", "z.jpg") == "/r/sub/z.jpg";
    assert ChildPath("/r", "z.jpg") == "/r/z.jpg";
    assert [sub, top][1..] == [top];
    SingleFileVisited("/r/sub", top, true);
    SingleFileVisited("/r", top, true);
    SingleFileVisited("/r", top, false);
    assert !IsDot("sub");
    assert Visited("/r/sub", sub, true) == [Visit("/r/sub/z.jpg", content)];
    assert VisitedEntries("/r", [sub, top], true)
        == Visited("/r/sub", sub, true) + VisitedEntries("/r", [top], true);
    assert Visited("/r", fs["/r"], true) == [Visit("/r/sub/z.jpg", content), Visit("/r/z.jpg", content)];
    assert Visited("/r", fs["/r"], false) == [Visit("/r/z.jpg", content)];
    assert ["/r"][1..] == [];
    assert VisitedRoots(fs, ["/r"], true) == [Visit("/r/sub/z.jpg", content), Visit("/r/z.jpg", content)];
    TwoVisitsOneGroup(hash, fs, ["/r"], true, "/r/sub/z.jpg", "/r/z.jpg", content);
    assert VisitedRoots(fs, ["/r"], false) == [Visit("/r/z.jpg", content)];
    ExecuteIntendedGroups(hash, fs, ["/r"], false);
    var pairs := Keyed(hash, VisitedRoots(fs, ["/r"], false));
    forall k ensures k !in Execute(Intended, hash, fs, ["/r"], false) {
      assert |PathsUnder(pairs, k)| <= 1;
    }
  }

  /** The same directory given twice (`/r` and `/r/`) is scanned twice, so even
      the intended variant reports a lone file as a duplicate of itself. */
  lemma RepeatedRootReportsItself(hash: seq<byte> -> string, content: seq<byte>)
    ensures var fs := map["/r" := Dir("r", true, [File("z.jpg", content)])];
      Execute(Intended, hash, fs, ["/r", "/r/"], true) == map[hash(content) := ["/r/z.jpg", "/r/z.jpg"]]
  {
    var fs := map["/r" := Dir("r", true, [File("z.jpg", content)])];
    var roots := ["/r", "/r/"];
    assert TrimTrailingSeparators("/r") == "/r";
    assert TrimTrailingSeparators("/r/") == "/r" by {
      assert "/r/"[..2] == "/r";
    }
    assert Visited("/r", fs["/r"], true) == [Visit("/r/z.jpg", content)] by {
      assert ChildPath("/r", "z.jpg") == "/r/z.jpg";
      SingleFileVisited("/r", File("z.jpg", content), true);
    }
    assert roots[1..] == ["/r/"] && roots[1..][1..] == [];
    assert VisitedRoots(fs, roots, true) == [Visit("/r/z.jpg", content), Visit("/r/z.jpg", content)];
    TwoVisitsOneGroup(hash, fs, roots, true, "/r/z.jpg", "/r/z.jpg", content);
  }
}
