/**
 One run of the build script, as far as it touches the vendored tree (yuv-sys/build.rs:83-94 and
 126-156): clone unless already there, list headers and sources, rename if just cloned.
 */
module BuildRun {
  import opened Wrappers
  import opened Paths
  import opened WordRuns
  import opened RenameList
  import opened Renaming
  import opened CopyTree

  datatype CloneResult = AlreadyThere | Cloned | Panicked

  /** Nothing lies below a path that does not exist. */
  ghost predicate NoOrphans(disk: Disk, dst: Path) {
    dst !in disk ==> forall q | q in disk :: !(dst <= q)
  }

  /** A copy at any moment, also while what it placed is removed again: directories and front parts of files. */
  ghost predicate MidCopy(src: Tree, dst: Path, before: Disk, now: Disk) {
    SameOutside(dst, before, now) && dst in now && PartOf(Graft(dst, src), before, now)
  }

  /** `clone_if_needed`; `rm` says which removals succeed. */
  method CloneIfNeeded(fs: FileSystem, src: Tree, dst: Path, io: Io, rm: Io) returns (r: CloneResult)
    requires src.Dir? && ValidTree(src) && ParentExists(fs.disk, dst) && NoOrphans(fs.disk, dst)
    modifies fs
    ensures r.AlreadyThere? <==> dst in old(fs.disk)
    ensures r.AlreadyThere? ==> fs.disk == old(fs.disk)
    ensures r.Cloned? <==> dst !in old(fs.disk) && Placeable(old(fs.disk), Graft(dst, src), io)
    ensures r.Cloned? ==> fs.disk == old(fs.disk) + Graft(dst, src)
    ensures r.Panicked? && (rm(dst) || dst !in fs.disk) ==> fs.disk == old(fs.disk)
    ensures r.Panicked? && fs.disk != old(fs.disk) ==> MidCopy(src, dst, old(fs.disk), fs.disk)
  {
    if dst in fs.disk {
      return AlreadyThere;
    }
    var ok := fs.CopyDir(src, dst, io);
    if !ok {
      var _ := fs.RemoveDirAll(dst, rm);
      assert dst !in fs.disk ==> fs.disk == old(fs.disk);
      return Panicked;
    }
    return Cloned;
  }

  /** `Path::extension`: what follows the last dot, unless that dot comes first or there is none. */
  function Extension(name: string): Option<string> {
    if name == [] then None
    else if name[|name| - 1] == '.' then (if |name| == 1 then None else Some(""))
    else
      match Extension(name[..|name| - 1])
      case None => None
      case Some(e) => Some(e + [name[|name| - 1]])
  }

  /** The extension is the dot-free part after a dot that is not the first character. */
  lemma {:induction false} ExtensionIsSuffix(name: string, stem: string, ext: string)
    requires name == stem + "." + ext && '.' !in ext
    ensures Extension(name) == if stem == [] then None else Some(ext)
  {
    if ext != [] {
      var init := ext[..|ext| - 1];
      assert name[..|name| - 1] == stem + "." + init;
      assert name[|name| - 1] == ext[|ext| - 1] && name[|name| - 1] in ext;
      ExtensionIsSuffix(name[..|name| - 1], stem, init);
      assert ext == init + [name[|name| - 1]];
    }
  }

  /** Conversely, whatever has an extension is a nonempty stem, a dot and that extension. */
  lemma {:induction false} ExtensionStem(name: string) returns (stem: string)
    requires Extension(name).Some?
    ensures stem != "" && name == stem + "." + Extension(name).value && '.' !in Extension(name).value
  {
    var init, last := name[..|name| - 1], name[|name| - 1];
    assert name == init + [last];
    if last == '.' {
      stem := init;
    } else {
      stem := ExtensionStem(init);
      assert name == stem + "." + (Extension(init).value + [last]);
    }
  }

  /** The `unwrap` on the extension panics exactly when there is no dot, or only a first one. */
  lemma {:induction false} NoExtensionIff(name: string)
    ensures Extension(name).None? <==> forall i | 0 < i < |name| :: name[i] != '.'
  {
    if |name| > 1 && name[|name| - 1] != '.' {
      NoExtensionIff(name[..|name| - 1]);
    }
  }

  const INCLUDE_DIR: Path := ["include", "libyuv"]
  const SOURCE_DIR: Path := ["source"]

  /** The names directly below a directory. */
  function Names(disk: Disk, dir: Path): set<string> {
    set q | q in disk && |q| == |dir| + 1 && dir <= q :: q[|dir|]
  }

  lemma NameIff(disk: Disk, dir: Path, name: string)
    ensures name in Names(disk, dir) <==> dir + [name] in disk
  {
    if name in Names(disk, dir) {
      var q :| q in disk && |q| == |dir| + 1 && dir <= q && q[|dir|] == name;
      assert q == dir + [name];
    } else {
      assert (dir + [name])[|dir|] == name;
    }
  }

  /** `read_dir(dir).unwrap()` succeeds and no name lacks an extension. */
  predicate Listable(disk: Disk, dir: Path) {
    dir in disk && disk[dir].Directory? && forall name | name in Names(disk, dir) :: Extension(name).Some?
  }

  /** Listing panics unless the directory exists and each entry has a dot behind its first character. */
  lemma ListableIff(disk: Disk, dir: Path)
    ensures Listable(disk, dir)
       <==> && dir in disk && disk[dir] == Directory
            && forall name | dir + [name] in disk :: exists i :: 0 < i < |name| && name[i] == '.'
  {
    forall name ensures name in Names(disk, dir) <==> dir + [name] in disk {
      NameIff(disk, dir, name);
    }
    forall name ensures Extension(name).Some? <==> exists i :: 0 < i < |name| && name[i] == '.' {
      NoExtensionIff(name);
    }
  }

  function WithExtension(disk: Disk, dir: Path, ext: string): set<Path> {
    set name | name in Names(disk, dir) && Extension(name) == Some(ext) :: dir + [name]
  }

  predicate NoDuplicates<T(==)>(s: seq<T>) {
    forall i, j | 0 <= i < j < |s| :: s[i] != s[j]
  }

  /** The paths in a directory that have the given extension, in whatever order they are listed. */
  method ListFiles(fs: FileSystem, dir: Path, ext: string) returns (r: Option<seq<Path>>)
    ensures r.Some? <==> Listable(fs.disk, dir)
    ensures r.Some? ==> NoDuplicates(r.value) && (set p | p in r.value) == WithExtension(fs.disk, dir, ext)
  {
    if dir !in fs.disk || fs.disk[dir].Regular? {
      return None;
    }
    var left, done, files := Names(fs.disk, dir), {}, [];
    while left != {}
      invariant left + done == Names(fs.disk, dir) && left !! done
      invariant forall name | name in done :: Extension(name).Some?
      invariant NoDuplicates(files)
      invariant forall p :: p in files <==>
                  exists name :: name in done && Extension(name) == Some(ext) && p == dir + [name]
      decreases left
    {
      var name :| name in left;
      if Extension(name).None? {
        return None;
      }
      if Extension(name).value == ext {
        assert dir + [name] !in files by {
          forall other | other in done ensures dir + [other] != dir + [name] {
            assert (dir + [other])[|dir|] == other && (dir + [name])[|dir|] == name;
          }
        }
        files := files + [dir + [name]];
      }
      left, done := left - {name}, done + {name};
    }
    assert done == Names(fs.disk, dir);
    return Some(files);
  }

  function RenameNode(w: CharClass, es: seq<Entry>, n: Node): Node
    requires Usable(es)
  {
    if n.Regular? then Regular(RenameText(w, es, n.content)) else n
  }

  /** The disk with exactly the given paths renamed. */
  function RenamePaths(w: CharClass, es: seq<Entry>, paths: set<Path>, disk: Disk): Disk
    requires Usable(es)
  {
    map q | q in disk :: if q in paths then RenameNode(w, es, disk[q]) else disk[q]
  }

  /** The file can be read as text and written back. */
  predicate CanEdit(disk: Disk, io: Io, p: Path) {
    io(p) && p in disk && disk[p].Regular?
  }

  /**
   What the pass may leave of one file: its old text, its renamed text if it can be edited, and otherwise
   at most a proper part of it, since opening a file for writing empties it.
   */
  ghost predicate EditedOrNot(w: CharClass, es: seq<Entry>, can: bool, before: Node, after: Node)
    requires Usable(es)
  {
    || after == before
    || (can && after == RenameNode(w, es, before))
    || (!can && before.Regular? && after.Regular? && after.content < RenameText(w, es, before.content))
  }

  /** What a pass with failures may leave: every selected file edited or not, all else untouched. */
  ghost predicate PartlyRenamed(w: CharClass, es: seq<Entry>, selected: set<Path>, io: Io, before: Disk, after: Disk)
    requires Usable(es)
  {
    && after.Keys == before.Keys
    && forall q | q in before ::
         if q in selected then EditedOrNot(w, es, CanEdit(before, io, q), before[q], after[q])
         else after[q] == before[q]
  }

  /** A pass at any moment: each selected file is old, or the front part of its renamed text. */
  ghost predicate MidRename(w: CharClass, es: seq<Entry>, selected: set<Path>, before: Disk, now: Disk)
    requires Usable(es)
  {
    && now.Keys == before.Keys
    && forall q | q in before ::
         || now[q] == before[q]
         || (q in selected && before[q].Regular? && now[q].Regular?
             && now[q].content <= RenameText(w, es, before[q].content))
  }

  lemma NextFile(w: CharClass, es: seq<Entry>, done: set<Path>, io: Io, before: Disk, now: Disk, p: Path, next: Disk)
    requires Usable(es) && p !in done
    requires PartlyRenamed(w, es, done, io, before, now) && PartlyRenamed(w, es, {p}, io, now, next)
    ensures PartlyRenamed(w, es, done + {p}, io, before, next)
    ensures CanEdit(now, io, p) <==> CanEdit(before, io, p)
    ensures CanEdit(now, io, p) && now == RenamePaths(w, es, done, before) ==>
              now[p := RenameNode(w, es, now[p])] == RenamePaths(w, es, done + {p}, before)
  {
    assert p in before ==> now[p] == before[p];
  }

  /** The task for one file, run to its end. */
  method EditFile(fs: FileSystem, w: CharClass, fncList: seq<string>, p: Path, io: Io) returns (ok: bool)
    requires PlainList(fncList) && Usable(ParseList(fncList))
    modifies fs
    ensures ok <==> CanEdit(old(fs.disk), io, p)
    ensures ok <==> io(p) && p in old(fs.disk) && old(fs.disk)[p].Regular?
    ensures ok ==> fs.disk == old(fs.disk)[p := RenameNode(w, ParseList(fncList), old(fs.disk)[p])]
    ensures PartlyRenamed(w, ParseList(fncList), {p}, io, old(fs.disk), fs.disk)
  {
    if p !in fs.disk || fs.disk[p].Directory? {
      return false;
    }
    var content := RenameContent(w, fncList, fs.disk[p].content);
    ok := io(p);
    if ok {
      fs.disk := fs.disk[p := Regular(content)];
    } else {
      var written: int := *;
      if 0 <= written < |content| {
        fs.disk := fs.disk[p := Regular(content[..written])];
      }
    }
  }

  /** `rename_symbols`: once a file has failed, the remaining ones may or may not still be edited. */
  method RenameSymbols(fs: FileSystem, w: CharClass, fncList: seq<string>, files: seq<Path>, io: Io) returns (ok: bool)
    requires PlainList(fncList) && Usable(ParseList(fncList)) && NoDuplicates(files)
    modifies fs
    ensures ok <==> forall p | p in files :: CanEdit(old(fs.disk), io, p)
    ensures ok ==> fs.disk == RenamePaths(w, ParseList(fncList), (set p | p in files), old(fs.disk))
    ensures PartlyRenamed(w, ParseList(fncList), (set p | p in files), io, old(fs.disk), fs.disk)
  {
    ghost var es, done := ParseList(fncList), {};
    ok := true;
    var i := 0;
    while i < |files|
      invariant i <= |files| && done == (set p | p in files[..i])
      invariant PartlyRenamed(w, es, done, io, old(fs.disk), fs.disk)
      invariant ok <==> forall p | p in done :: CanEdit(old(fs.disk), io, p)
      invariant ok ==> fs.disk == RenamePaths(w, es, done, old(fs.disk))
    {
      var p := files[i];
      ghost var now := fs.disk;
      assert files[..i + 1] == files[..i] + [p] && p !in done;
      var goOn: bool := *;
      if ok || goOn {
        var edited := EditFile(fs, w, fncList, p, io);
        ok := ok && edited;
      }
      NextFile(w, es, done, io, old(fs.disk), now, p, fs.disk);
      done := done + {p};
      i := i + 1;
    }
    assert files[..i] == files;
  }

  // ---------------------------------------------------------------- the whole run

  /** The headers and sources that the pass is given. */
  function Selection(disk: Disk, dst: Path): set<Path> {
    WithExtension(disk, dst + INCLUDE_DIR, "h") + WithExtension(disk, dst + SOURCE_DIR, "cc")
  }

  lemma ListedExists(disk: Disk, dir: Path, ext: string)
    ensures WithExtension(disk, dir, ext) <= disk.Keys
  {
    forall name | name in Names(disk, dir) ensures dir + [name] in disk {
      NameIff(disk, dir, name);
    }
  }

  lemma SelectionExists(disk: Disk, dst: Path)
    ensures Selection(disk, dst) <= disk.Keys
  {
    ListedExists(disk, dst + INCLUDE_DIR, "h");
    ListedExists(disk, dst + SOURCE_DIR, "cc");
  }

  /** The vendored tree copied below `dst`, then renamed once. */
  function Finished(w: CharClass, es: seq<Entry>, src: Tree, dst: Path, disk: Disk): Disk
    requires Usable(es)
  {
    var copied := disk + Graft(dst, src);
    RenamePaths(w, es, Selection(copied, dst), copied)
  }

  /** What a run is given: the symbol list, if it can be read, and which operations on which paths succeed. */
  datatype Inputs = Inputs(list: Option<seq<string>>, io: Io, rm: Io, edit: Io)

  function Entries(list: Option<seq<string>>): (es: seq<Entry>)
    ensures Usable(es)
  {
    match list
    case None => []
    case Some(lines) => ParsedList(lines); ParseList(lines)
  }

  /** Everything up to the pass succeeds on a tree just copied: both listings and the list itself. */
  predicate Listed(dst: Path, copied: Disk, given: Inputs) {
    given.list.Some? && Listable(copied, dst + INCLUDE_DIR) && Listable(copied, dst + SOURCE_DIR)
  }

  predicate AllEditable(dst: Path, copied: Disk, given: Inputs) {
    forall p | p in Selection(copied, dst) :: CanEdit(copied, given.edit, p)
  }

  /** The run, started without a tree, gets to its end. */
  predicate Completes(src: Tree, dst: Path, before: Disk, given: Inputs) {
    var copied := before + Graft(dst, src);
    Placeable(before, Graft(dst, src), given.io) && Listed(dst, copied, given) && AllEditable(dst, copied, given)
  }

  /** What one run does to the disk, by its inputs. */
  ghost predicate BuildStep(w: CharClass, src: Tree, dst: Path, before: Disk, after: Disk, given: Inputs) {
    var copied, es := before + Graft(dst, src), Entries(given.list);
    if dst in before then after == before
    else if !Placeable(before, Graft(dst, src), given.io) then
      after == before || (!given.rm(dst) && MidCopy(src, dst, before, after))
    else if !Listed(dst, copied, given) then after == copied
    else if !AllEditable(dst, copied, given) then
      PartlyRenamed(w, es, Selection(copied, dst), given.edit, copied, after)
    else after == Finished(w, es, src, dst, before)
  }

  /** How a run ended. */
  datatype Outcome = Kept | CloneFailed | LeftPartial | StoppedAfterClone | StoppedInRename | Renamed

  lemma PathsOfDifferentLength(disk: Disk, dst: Path, headers: seq<Path>, sources: seq<Path>)
    requires NoDuplicates(headers) && NoDuplicates(sources)
    requires (set p | p in headers) == WithExtension(disk, dst + INCLUDE_DIR, "h")
    requires (set p | p in sources) == WithExtension(disk, dst + SOURCE_DIR, "cc")
    ensures NoDuplicates(headers + sources)
    ensures (set p | p in headers + sources) == Selection(disk, dst)
  {
    forall p | p in headers ensures |p| == |dst| + 3 {
      assert p in WithExtension(disk, dst + INCLUDE_DIR, "h");
    }
    forall p | p in sources ensures |p| == |dst| + 2 {
      assert p in WithExtension(disk, dst + SOURCE_DIR, "cc");
    }
    assert forall i | 0 <= i < |headers| :: headers[i] in headers;
    assert forall i | 0 <= i < |sources| :: sources[i] in sources;
  }

  /** Both listings, headers first. */
  method ListSelection(fs: FileSystem, dst: Path) returns (r: Option<seq<Path>>)
    ensures r.Some? <==> Listable(fs.disk, dst + INCLUDE_DIR) && Listable(fs.disk, dst + SOURCE_DIR)
    ensures r.Some? ==> NoDuplicates(r.value) && (set p | p in r.value) == Selection(fs.disk, dst)
  {
    var headers := ListFiles(fs, dst + INCLUDE_DIR, "h");
    var sources := ListFiles(fs, dst + SOURCE_DIR, "cc");
    if headers.None? || sources.None? {
      return None;
    }
    PathsOfDifferentLength(fs.disk, dst, headers.value, sources.value);
    return Some(headers.value + sources.value);
  }

  /** The end of a run on a tree just copied. */
  method RenameCopied(fs: FileSystem, dst: Path, w: CharClass, given: Inputs) returns (o: Outcome)
    requires given.list.Some? ==> PlainList(given.list.value)
    modifies fs
    ensures o.StoppedAfterClone? || o.StoppedInRename? || o.Renamed?
    ensures o.StoppedAfterClone? <==> !Listed(dst, old(fs.disk), given)
    ensures o.Renamed? <==> Listed(dst, old(fs.disk), given) && AllEditable(dst, old(fs.disk), given)
    ensures o.StoppedAfterClone? ==> fs.disk == old(fs.disk)
    ensures var sel := Selection(old(fs.disk), dst);
            && (o.StoppedInRename? ==>
                  PartlyRenamed(w, Entries(given.list), sel, given.edit, old(fs.disk), fs.disk))
            && (o.Renamed? ==> fs.disk == RenamePaths(w, Entries(given.list), sel, old(fs.disk)))
  {
    var files := ListSelection(fs, dst);
    if files.None? || given.list.None? {
      return StoppedAfterClone;
    }
    assert forall p :: p in files.value <==> p in (set q | q in files.value);
    ParsedList(given.list.value);
    var ok := RenameSymbols(fs, w, given.list.value, files.value, given.edit);
    o := if ok then Renamed else StoppedInRename;
  }

  /** A run of the script: the outcome, and the disk it leaves, follow from the inputs. */
  method Build(fs: FileSystem, src: Tree, dst: Path, w: CharClass, given: Inputs) returns (o: Outcome)
    requires src.Dir? && ValidTree(src) && ParentExists(fs.disk, dst) && NoOrphans(fs.disk, dst)
    requires given.list.Some? ==> PlainList(given.list.value)
    modifies fs
    ensures BuildStep(w, src, dst, old(fs.disk), fs.disk, given)
    ensures o.Kept? <==> dst in old(fs.disk)
    ensures o.CloneFailed? || o.LeftPartial? <==>
              dst !in old(fs.disk) && !Placeable(old(fs.disk), Graft(dst, src), given.io)
    ensures o.LeftPartial? ==> !given.rm(dst) && dst in fs.disk
    ensures o.CloneFailed? ==> fs.disk == old(fs.disk)
    ensures var copied := old(fs.disk) + Graft(dst, src);
            var cloned := dst !in old(fs.disk) && Placeable(old(fs.disk), Graft(dst, src), given.io);
            && (o.StoppedAfterClone? <==> cloned && !Listed(dst, copied, given))
            && (o.StoppedInRename? <==> cloned && Listed(dst, copied, given) && !AllEditable(dst, copied, given))
    ensures o.Renamed? <==> dst !in old(fs.disk) && Completes(src, dst, old(fs.disk), given)
  {
    GraftBelow(dst, src);
    var cloned := CloneIfNeeded(fs, src, dst, given.io, given.rm);
    if cloned.Panicked? {
      return if dst in fs.disk then LeftPartial else CloneFailed;
    }
    if cloned.AlreadyThere? {
      var _ := ListSelection(fs, dst);
      return Kept;
    }
    o := RenameCopied(fs, dst, w, given);
  }
}
