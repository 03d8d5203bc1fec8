/**
 The finished tree file by file (yuv-sys/build.rs:139-156): which files the pass is given, by their names,
 and what every path holds afterwards.
 */
module FinishedTree {
  import opened Wrappers
  import opened Paths
  import opened WordRuns
  import opened RenameList
  import opened Renaming
  import opened CopyTree
  import opened BuildRun

  /** A header directly in `include/libyuv`, or a source directly in `source`. */
  ghost predicate IsHeaderOrSource(rel: Path) {
    exists stem: string :: stem != "" && (rel == ["include", "libyuv", stem + ".h"] || rel == ["source", stem + ".cc"])
  }

  lemma ListedIff(disk: Disk, dir: Path, ext: string, p: Path)
    ensures p in WithExtension(disk, dir, ext)
       <==> p in disk && |p| == |dir| + 1 && dir <= p && Extension(p[|dir|]) == Some(ext)
  {
    if p in WithExtension(disk, dir, ext) {
      var name :| name in Names(disk, dir) && Extension(name) == Some(ext) && p == dir + [name];
      NameIff(disk, dir, name);
    }
    if p in disk && |p| == |dir| + 1 && dir <= p && Extension(p[|dir|]) == Some(ext) {
      assert p == dir + [p[|dir|]];
      NameIff(disk, dir, p[|dir|]);
    }
  }

  ghost predicate HasStem(name: string, suffix: string) {
    exists stem: string :: stem != "" && name == stem + suffix
  }

  lemma HasExtensionIff(name: string, ext: string, suffix: string)
    requires '.' !in ext && suffix == "." + ext
    ensures Extension(name) == Some(ext) <==> HasStem(name, suffix)
  {
    if Extension(name) == Some(ext) {
      var stem := ExtensionStem(name);
      assert name == stem + suffix;
    }
    if HasStem(name, suffix) {
      var stem: string :| stem != "" && name == stem + suffix;
      assert name == stem + "." + ext;
      ExtensionIsSuffix(name, stem, ext);
    }
  }

  /** Directly in a directory: the directory's path and one name. */
  lemma DirectlyIn(dst: Path, sub: Path, rel: Path)
    ensures |dst + rel| == |dst + sub| + 1 && dst + sub <= dst + rel
       <==> |rel| == |sub| + 1 && rel == sub + [rel[|sub|]]
    ensures |rel| == |sub| + 1 ==> (dst + rel)[|dst + sub|] == rel[|sub|]
  {
    var p := dst + rel;
    assert p[|dst|..] == rel;
    if |rel| == |sub| + 1 {
      assert p[|dst|..|dst + sub|] == rel[..|sub|];
      assert rel == rel[..|sub|] + [rel[|sub|]];
      assert p[..|dst + sub|] == dst + rel[..|sub|];
    }
  }

  lemma HeaderIff(disk: Disk, dst: Path, rel: Path)
    ensures dst + rel in WithExtension(disk, dst + INCLUDE_DIR, "h")
       <==> dst + rel in disk && exists stem: string :: stem != "" && rel == ["include", "libyuv", stem + ".h"]
  {
    ListedIff(disk, dst + INCLUDE_DIR, "h", dst + rel);
    DirectlyIn(dst, INCLUDE_DIR, rel);
    if |rel| == 3 {
      HasExtensionIff(rel[2], "h", ".h");
      assert rel == INCLUDE_DIR + [rel[2]] <==> rel == ["include", "libyuv", rel[2]];
    }
  }

  lemma SourceIff(disk: Disk, dst: Path, rel: Path)
    ensures dst + rel in WithExtension(disk, dst + SOURCE_DIR, "cc")
       <==> dst + rel in disk && exists stem: string :: stem != "" && rel == ["source", stem + ".cc"]
  {
    ListedIff(disk, dst + SOURCE_DIR, "cc", dst + rel);
    DirectlyIn(dst, SOURCE_DIR, rel);
    if |rel| == 2 {
      HasExtensionIff(rel[1], "cc", ".cc");
      assert rel == SOURCE_DIR + [rel[1]] <==> rel == ["source", rel[1]];
    }
  }

  /** The pass is given exactly the headers and sources that are on the disk. */
  lemma SelectedIff(disk: Disk, dst: Path, rel: Path)
    ensures dst + rel in Selection(disk, dst) <==> dst + rel in disk && IsHeaderOrSource(rel)
  {
    HeaderIff(disk, dst, rel);
    SourceIff(disk, dst, rel);
  }

  /** Both listings succeed iff both directories exist and their entries have a dot behind the first character. */
  lemma ListedMeans(dst: Path, copied: Disk, given: Inputs)
    ensures Listed(dst, copied, given)
       <==> && given.list.Some?
            && EntriesHaveDots(copied, dst + ["include", "libyuv"]) && EntriesHaveDots(copied, dst + ["source"])
  {
    ListableIff(copied, dst + INCLUDE_DIR);
    ListableIff(copied, dst + SOURCE_DIR);
  }

  ghost predicate EntriesHaveDots(disk: Disk, dir: Path) {
    && dir in disk && disk[dir] == Directory
    && forall name | dir + [name] in disk :: exists i :: 0 < i < |name| && name[i] == '.'
  }

  /** And nothing that is not below `dst`. */
  lemma SelectedBelow(disk: Disk, dst: Path, p: Path)
    requires p in Selection(disk, dst)
    ensures dst <= p
  {
    ListedIff(disk, dst + INCLUDE_DIR, "h", p);
    ListedIff(disk, dst + SOURCE_DIR, "cc", p);
  }

  /**
   In a finished tree every header and source holds its renamed vendored text, every other path what the
   vendored tree holds there, and nothing else is below `dst`.
   */
  lemma FinishedFile(w: CharClass, es: seq<Entry>, src: Tree, dst: Path, before: Disk, rel: Path)
    requires Usable(es) && ValidTree(src) && forall p | p in before :: !(dst <= p)
    ensures var after, at := Finished(w, es, src, dst, before), Lookup(src, rel);
            && (dst + rel in after <==> at.Some?)
            && (at.Some? && at.value.Regular? && IsHeaderOrSource(rel) ==>
                  after[dst + rel] == Regular(RenameText(w, es, at.value.content)))
            && (at.Some? && !(at.value.Regular? && IsHeaderOrSource(rel)) ==> after[dst + rel] == at.value)
  {
    var copied, q := before + Graft(dst, src), dst + rel;
    CopyIntoEmpty(before, dst, src, q);
    assert q[|dst|..] == rel;
    SelectedIff(copied, dst, rel);
  }

  /** Nothing outside the tree changes. */
  lemma FinishedOutside(w: CharClass, es: seq<Entry>, src: Tree, dst: Path, before: Disk)
    requires Usable(es)
    ensures SameOutside(dst, before, Finished(w, es, src, dst, before))
  {
    var copied := before + Graft(dst, src);
    GraftBelow(dst, src);
    forall p | p in Selection(copied, dst) ensures dst <= p {
      SelectedBelow(copied, dst, p);
    }
  }
}
