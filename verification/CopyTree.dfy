/**
 The disk, and the recursive copy of the vendored sources onto it (yuv-sys/build.rs:70-94).
 A source tree is a value, listed in the order `read_dir` yields it; the disk is updated in place.
 Every operation on a path can fail: `io(p)` says whether the operations on `p` succeed.
 */
module CopyTree {
  import opened Wrappers
  import opened Paths

  datatype Tree = File(content: string) | Dir(entries: seq<DirEntry>)

  datatype DirEntry = DirEntry(name: string, tree: Tree)

  datatype Node = Regular(content: string) | Directory

  type Disk = map<Path, Node>

  /** Entries of one directory have different names, at every level. */
  predicate ValidTree(t: Tree)
    decreases t, 1
  {
    t.Dir? ==> ValidEntries(t.entries)
  }

  predicate ValidEntries(es: seq<DirEntry>)
    decreases es, 0
  {
    es != [] ==>
      var init, last := es[..|es| - 1], es[|es| - 1];
      && ValidEntries(init)
      && ValidTree(last.tree)
      && forall e | e in init :: e.name != last.name
  }

  function Find(es: seq<DirEntry>, name: string): Option<Tree> {
    if es == [] then None
    else if es[|es| - 1].name == name then Some(es[|es| - 1].tree)
    else Find(es[..|es| - 1], name)
  }

  /** What a tree holds at a relative path. */
  function Lookup(t: Tree, p: Path): Option<Node>
    decreases p
  {
    if p == [] then Some(if t.File? then Regular(t.content) else Directory)
    else if t.File? then None
    else
      match Find(t.entries, p[0])
      case None => None
      case Some(child) => Lookup(child, p[1..])
  }

  /** The entry of a valid directory that has this name, if one has. */
  lemma {:induction false} FindEntry(es: seq<DirEntry>, e: DirEntry)
    requires ValidEntries(es) && e in es
    ensures Find(es, e.name) == Some(e.tree)
  {
    var init, last := es[..|es| - 1], es[|es| - 1];
    assert es == init + [last];
    if e != last {
      FindEntry(init, e);
    }
  }

  lemma {:induction false} FindNone(es: seq<DirEntry>, name: string)
    requires forall e | e in es :: e.name != name
    ensures Find(es, name) == None
  {
    if es != [] {
      assert es[|es| - 1] in es;
      FindNone(es[..|es| - 1], name);
    }
  }

  /**
   What a tree holds: a file its content and nothing below, a directory itself, and below each entry's name
   what that entry holds.
   */
  lemma LookupMeans(es: seq<DirEntry>, e: DirEntry, content: string, name: string, p: Path)
    requires ValidTree(Dir(es)) && e in es
    ensures Lookup(File(content), p) == if p == [] then Some(Regular(content)) else None
    ensures Lookup(Dir(es), []) == Some(Directory)
    ensures Lookup(Dir(es), [e.name] + p) == Lookup(e.tree, p)
    ensures (forall d | d in es :: d.name != name) ==> Lookup(Dir(es), [name] + p) == None
  {
    FindEntry(es, e);
    assert ([e.name] + p)[1..] == p;
    if forall d | d in es :: d.name != name {
      FindNone(es, name);
    }
  }

  /** The disk content that a tree rooted at `dst` amounts to. */
  function Graft(dst: Path, t: Tree): Disk
    decreases t, 1
  {
    match t
    case File(content) => map[dst := Regular(content)]
    case Dir(es) => map[dst := Directory] + GraftEntries(dst, es)
  }

  function GraftEntries(dst: Path, es: seq<DirEntry>): Disk
    decreases es, 0
  {
    if es == [] then map[]
    else
      var last := es[|es| - 1];
      GraftEntries(dst, es[..|es| - 1]) + Graft(dst + [last.name], last.tree)
  }

  // ---------------------------------------------------------------- a graft is the tree, relocated

  lemma {:induction false} FindMember(es: seq<DirEntry>, name: string)
    ensures Find(es, name).Some? <==> exists e :: e in es && e.name == name
  {
    if es != [] {
      FindMember(es[..|es| - 1], name);
      assert es == es[..|es| - 1] + [es[|es| - 1]];
    }
  }

  lemma {:induction false} GraftEntriesLookup(dst: Path, es: seq<DirEntry>, q: Path)
    requires ValidEntries(es)
    ensures q in GraftEntries(dst, es)
       <==> dst < q && Find(es, q[|dst|]).Some? && Lookup(Find(es, q[|dst|]).value, q[|dst| + 1..]).Some?
    ensures q in GraftEntries(dst, es) ==>
              GraftEntries(dst, es)[q] == Lookup(Find(es, q[|dst|]).value, q[|dst| + 1..]).value
    decreases es, 0
  {
    if es != [] {
      var init, last := es[..|es| - 1], es[|es| - 1];
      var child := dst + [last.name];
      GraftEntriesLookup(dst, init, q);
      FindMember(init, last.name);
      GraftLookup(child, last.tree, q);
      assert child <= q <==> dst < q && q[|dst|] == last.name;
      if child <= q {
        assert q[|child|..] == q[|dst| + 1..];
      }
    }
  }

  /** Grafting a tree at `dst` is the tree itself, path by path, and nothing else. */
  lemma {:induction false} GraftLookup(dst: Path, t: Tree, q: Path)
    requires ValidTree(t)
    ensures q in Graft(dst, t) <==> dst <= q && Lookup(t, q[|dst|..]).Some?
    ensures q in Graft(dst, t) ==> Graft(dst, t)[q] == Lookup(t, q[|dst|..]).value
    decreases t, 1
  {
    assert dst <= q && q != dst ==> dst < q;
    if t.Dir? {
      GraftEntriesLookup(dst, t.entries, q);
      if dst < q {
        assert q[|dst|..][0] == q[|dst|] && q[|dst|..][1..] == q[|dst| + 1..];
      }
    } else {
      assert dst <= q && q[|dst|..] == [] ==> q == dst;
    }
  }

  // ---------------------------------------------------------------- copying

  /** `io(p)`: the operations on destination path `p`, and on the source entry copied there, succeed. */
  type Io = Path -> bool

  /** Everything to be placed can be placed: no failure, and no file meets a directory. */
  predicate Placeable(disk: Disk, placed: Disk, io: Io) {
    forall q | q in placed :: io(q) && (q in disk ==> (disk[q].Directory? <==> placed[q].Directory?))
  }

  /** The two disks agree on every path that is not `dst` or below it. */
  ghost predicate SameOutside(dst: Path, before: Disk, after: Disk) {
    forall q | !(dst <= q) :: (q in after <==> q in before) && (q in before ==> after[q] == before[q])
  }

  /** The parent of `p` is a directory, so `create_dir_all(p)` has at most one directory to make. */
  predicate ParentExists(disk: Disk, p: Path) {
    p != [] && p[..|p| - 1] in disk && disk[p[..|p| - 1]].Directory?
  }

  function Without(p: Path, disk: Disk): Disk {
    map q | q in disk && !(p <= q) :: disk[q]
  }

  /** Copied to a place that was empty, the tree on disk is the source tree, exactly. */
  lemma CopyIntoEmpty(disk: Disk, dst: Path, src: Tree, q: Path)
    requires ValidTree(src) && (forall p | p in disk :: !(dst <= p)) && dst <= q
    ensures var after, at := disk + Graft(dst, src), Lookup(src, q[|dst|..]);
            (q in after <==> at.Some?) && (q in after ==> after[q] == at.value)
  {
    GraftLookup(dst, src, q);
  }

  lemma {:induction false} GraftEntriesBelow(dst: Path, es: seq<DirEntry>)
    ensures forall q | q in GraftEntries(dst, es) :: dst < q && exists e :: e in es && e.name == q[|dst|]
    decreases es, 0
  {
    if es != [] {
      var init, last := es[..|es| - 1], es[|es| - 1];
      GraftEntriesBelow(dst, init);
      GraftBelow(dst + [last.name], last.tree);
      assert last in es;
    }
  }

  lemma {:induction false} GraftBelow(dst: Path, t: Tree)
    ensures dst in Graft(dst, t) && forall q | q in Graft(dst, t) :: dst <= q
    decreases t, 1
  {
    if t.Dir? {
      GraftEntriesBelow(dst, t.entries);
    }
  }

  lemma {:induction false} ValidEntriesAt(es: seq<DirEntry>, i: nat)
    requires ValidEntries(es) && i < |es|
    ensures ValidEntries(es[..i]) && ValidEntries(es[..i + 1]) && ValidTree(es[i].tree)
    ensures forall e | e in es[..i] :: e.name != es[i].name
  {
    if i < |es| - 1 {
      ValidEntriesAt(es[..|es| - 1], i);
      assert es[..|es| - 1][..i] == es[..i] && es[..|es| - 1][..i + 1] == es[..i + 1];
    } else {
      assert es[..i + 1] == es;
      if i > 0 {
        ValidEntriesAt(es[..i], i - 1);
        assert es[..i][..i] == es[..i];
      }
    }
  }

  lemma GraftEntriesSnoc(dst: Path, es: seq<DirEntry>, i: nat)
    requires i < |es|
    ensures GraftEntries(dst, es[..i + 1]) == GraftEntries(dst, es[..i]) + Graft(dst + [es[i].name], es[i].tree)
  {
    assert es[..i + 1][..i] == es[..i];
  }

  lemma {:induction false} GraftEntriesContains(dst: Path, es: seq<DirEntry>, i: nat)
    requires ValidEntries(es) && i <= |es|
    ensures GraftEntries(dst, es[..i]).Keys <= GraftEntries(dst, es).Keys
    ensures forall q | q in GraftEntries(dst, es[..i]) :: GraftEntries(dst, es)[q] == GraftEntries(dst, es[..i])[q]
    decreases |es| - i
  {
    if i == |es| {
      assert es[..i] == es;
    } else {
      GraftEntriesSnoc(dst, es, i);
      GraftEntriesContains(dst, es, i + 1);
      ValidEntriesAt(es, i);
      GraftEntriesBelow(dst, es[..i]);
      GraftBelow(dst + [es[i].name], es[i].tree);
    }
  }

  /** The disk after the first `i` entries of a directory have been copied. */
  function CopiedSoFar(disk: Disk, dst: Path, es: seq<DirEntry>, i: nat): Disk
    requires i <= |es|
  {
    disk[dst := Directory] + GraftEntries(dst, es[..i])
  }

  lemma SameBelow(disk: Disk, dst: Path, es: seq<DirEntry>, i: nat, q: Path)
    requires ValidEntries(es) && i < |es| && dst + [es[i].name] <= q
    ensures var now := CopiedSoFar(disk, dst, es, i);
            (q in now <==> q in disk) && (q in disk ==> now[q] == disk[q])
  {
    GraftEntriesBelow(dst, es[..i]);
    ValidEntriesAt(es, i);
    assert q[|dst|] == es[i].name;
    assert q !in GraftEntries(dst, es[..i]);
  }

  /** What is under one entry's name has not been touched by the entries before it. */
  lemma ChildUntouched(disk: Disk, dst: Path, es: seq<DirEntry>, i: nat, io: Io)
    requires ValidEntries(es) && i < |es|
    ensures ParentExists(CopiedSoFar(disk, dst, es, i), dst + [es[i].name])
    ensures Placeable(CopiedSoFar(disk, dst, es, i), Graft(dst + [es[i].name], es[i].tree), io)
       <==> Placeable(disk, Graft(dst + [es[i].name], es[i].tree), io)
  {
    var child := dst + [es[i].name];
    var now, g := CopiedSoFar(disk, dst, es, i), Graft(child, es[i].tree);
    assert child[..|child| - 1] == dst;
    assert dst !in GraftEntries(dst, es[..i]) by { GraftEntriesBelow(dst, es[..i]); }
    GraftBelow(child, es[i].tree);
    forall q | q in g ensures (q in now <==> q in disk) && (q in disk ==> now[q] == disk[q]) {
      SameBelow(disk, dst, es, i, q);
    }
  }

  lemma CopyNext(disk: Disk, dst: Path, es: seq<DirEntry>, i: nat)
    requires i < |es|
    ensures CopiedSoFar(disk, dst, es, i) + Graft(dst + [es[i].name], es[i].tree) == CopiedSoFar(disk, dst, es, i + 1)
  {
    GraftEntriesSnoc(dst, es, i);
  }

  /** A directory can be placed iff its entries can, one after the other. */
  lemma PlaceableNext(disk: Disk, dst: Path, es: seq<DirEntry>, i: nat, io: Io)
    requires ValidEntries(es) && i < |es|
    ensures var g := Graft(dst + [es[i].name], es[i].tree);
            && (Placeable(disk, GraftEntries(dst, es[..i]), io) && Placeable(disk, g, io)
                ==> Placeable(disk, GraftEntries(dst, es[..i + 1]), io))
            && (!Placeable(disk, g, io) ==> !Placeable(disk, GraftEntries(dst, es), io))
  {
    var g := Graft(dst + [es[i].name], es[i].tree);
    GraftEntriesSnoc(dst, es, i);
    GraftEntriesContains(dst, es, i + 1);
    if !Placeable(disk, g, io) {
      var q :| q in g && !(io(q) && (q in disk ==> (disk[q].Directory? <==> g[q].Directory?)));
      assert q in GraftEntries(dst, es[..i + 1]) && GraftEntries(dst, es)[q] == g[q];
    }
  }

  lemma PlaceableDir(disk: Disk, dst: Path, es: seq<DirEntry>, io: Io)
    ensures Placeable(disk, Graft(dst, Dir(es)), io)
       <==> Placeable(disk, map[dst := Directory], io) && Placeable(disk, GraftEntries(dst, es), io)
  {
    GraftEntriesBelow(dst, es);
    var g := Graft(dst, Dir(es));
    assert g == map[dst := Directory] + GraftEntries(dst, es);
    assert forall q | q in GraftEntries(dst, es) :: q in g && g[q] == GraftEntries(dst, es)[q];
    assert dst in g && g[dst] == Directory;
  }

  lemma CopiedAll(disk: Disk, dst: Path, es: seq<DirEntry>)
    ensures CopiedSoFar(disk, dst, es, |es|) == disk + Graft(dst, Dir(es))
    ensures CopiedSoFar(disk, dst, es, 0) == disk[dst := Directory]
  {
    assert es[..|es|] == es;
  }

  lemma OutsideChild(dst: Path, name: string, a: Disk, b: Disk, c: Disk)
    requires SameOutside(dst, a, b) && SameOutside(dst + [name], b, c)
    ensures SameOutside(dst, a, c)
  {
    forall q | !(dst <= q) ensures (q in c <==> q in a) && (q in a ==> c[q] == a[q]) {
      assert !(dst + [name] <= q);
    }
  }

  /** Everything one turn of the copy loop relies on. */
  ghost predicate CopyState(start: Disk, now: Disk, dst: Path, es: seq<DirEntry>, i: nat, io: Io) {
    && i <= |es|
    && now == CopiedSoFar(start, dst, es, i)
    && Placeable(start, GraftEntries(dst, es[..i]), io)
    && SameOutside(dst, start, now) && dst in now
  }

  lemma BeforeEntry(start: Disk, now: Disk, dst: Path, es: seq<DirEntry>, i: nat, io: Io)
    requires ValidEntries(es) && i < |es| && CopyState(start, now, dst, es, i, io)
    ensures ValidTree(es[i].tree) && ParentExists(now, dst + [es[i].name])
  {
    ChildUntouched(start, dst, es, i, io);
    ValidEntriesAt(es, i);
  }

  lemma AfterEntry(start: Disk, now: Disk, dst: Path, es: seq<DirEntry>, i: nat, io: Io, next: Disk, ok: bool)
    requires ValidEntries(es) && i < |es| && CopyState(start, now, dst, es, i, io)
    requires ok <==> Placeable(now, Graft(dst + [es[i].name], es[i].tree), io)
    requires ok ==> next == now + Graft(dst + [es[i].name], es[i].tree)
    requires SameOutside(dst + [es[i].name], now, next)
    ensures ok ==> CopyState(start, next, dst, es, i + 1, io)
    ensures !ok ==> !Placeable(start, GraftEntries(dst, es), io)
    ensures SameOutside(dst, start, next) && dst in next
  {
    assert !(dst + [es[i].name] <= dst);
    ChildUntouched(start, dst, es, i, io);
    PlaceableNext(start, dst, es, i, io);
    CopyNext(start, dst, es, i);
    OutsideChild(dst, es[i].name, start, now, next);
  }

  // ---------------------------------------------------------------- copies that did not finish

  /** A directory, or the front part of a file. */
  predicate PartOfNode(whole: Node, part: Node) {
    match whole
    case Directory => part == Directory
    case Regular(content) => part.Regular? && part.content <= content
  }

  /** Whatever is on the disk was there before, or is part of what was to be placed. */
  ghost predicate PartOf(placed: Disk, before: Disk, after: Disk) {
    forall q | q in after :: (q in before && after[q] == before[q]) || (q in placed && PartOfNode(placed[q], after[q]))
  }

  lemma PartsCompose(placed: Disk, a: Disk, b: Disk, c: Disk)
    requires PartOf(placed, a, b) && PartOf(placed, b, c)
    ensures PartOf(placed, a, c)
  {
  }

  lemma PartOfMore(some: Disk, all: Disk, a: Disk, b: Disk)
    requires PartOf(some, a, b) && forall q | q in some :: q in all && all[q] == some[q]
    ensures PartOf(all, a, b)
  {
  }

  /** A part of one entry is a part of the directory. */
  lemma EntryPart(dst: Path, es: seq<DirEntry>, i: nat, a: Disk, b: Disk)
    requires ValidEntries(es) && i < |es| && PartOf(Graft(dst + [es[i].name], es[i].tree), a, b)
    ensures PartOf(Graft(dst, Dir(es)), a, b)
  {
    var some, all := Graft(dst + [es[i].name], es[i].tree), Graft(dst, Dir(es));
    GraftEntriesSnoc(dst, es, i);
    GraftEntriesContains(dst, es, i + 1);
    forall q | q in some ensures q in all && all[q] == some[q] {
      assert q in GraftEntries(dst, es[..i + 1]) && GraftEntries(dst, es[..i + 1])[q] == some[q];
    }
    PartOfMore(some, all, a, b);
  }

  lemma DirectoryPart(dst: Path, es: seq<DirEntry>, a: Disk)
    ensures PartOf(Graft(dst, Dir(es)), a, a[dst := Directory])
  {
    var g := Graft(dst, Dir(es));
    GraftEntriesBelow(dst, es);
    assert g == map[dst := Directory] + GraftEntries(dst, es);
    assert dst !in GraftEntries(dst, es) && g[dst] == Directory;
  }

  class FileSystem {
    var disk: Disk

    /** `fs::create_dir_all` where the parent is already there. */
    method CreateDirAll(p: Path, io: Io) returns (ok: bool)
      requires ParentExists(disk, p)
      modifies this
      ensures ok <==> io(p) && (p in old(disk) ==> old(disk)[p].Directory?)
      ensures disk == if ok then old(disk)[p := Directory] else old(disk)
    {
      ok := io(p) && (p in disk ==> disk[p].Directory?);
      if ok {
        disk := disk[p := Directory];
      }
    }

    /** `fs::copy`; a failed copy may leave the front part of the content behind at the destination. */
    method CopyFile(content: string, p: Path, io: Io) returns (ok: bool)
      requires ParentExists(disk, p)
      modifies this
      ensures ok <==> io(p) && (p in old(disk) ==> old(disk)[p].Regular?)
      ensures ok ==> disk == old(disk)[p := Regular(content)]
      ensures SameOutside(p, old(disk), disk)
      ensures PartOf(map[p := Regular(content)], old(disk), disk)
      ensures !ok && p in old(disk) && old(disk)[p].Directory? ==> disk == old(disk)
    {
      ok := io(p) && (p in disk ==> disk[p].Regular?);
      if ok {
        disk := disk[p := Regular(content)];
      } else if p !in disk || disk[p].Regular? {
        var copied: int := *;
        if 0 <= copied < |content| {
          disk := disk[p := Regular(content[..copied])];
        }
      }
    }

    /**
     The recursive copy: it succeeds exactly when every path can be placed, and then the disk is the
     old one overlaid by the source, source files winning; in any case nothing outside `dst` changes, and
     below it there is nothing new that is not part of the source.
     */
    method CopyDir(src: Tree, dst: Path, io: Io) returns (ok: bool)
      requires src.Dir? && ValidTree(src) && ParentExists(disk, dst)
      modifies this
      ensures ok <==> Placeable(old(disk), Graft(dst, src), io)
      ensures ok ==> disk == old(disk) + Graft(dst, src)
      ensures SameOutside(dst, old(disk), disk)
      ensures PartOf(Graft(dst, src), old(disk), disk)
      ensures dst in disk || disk == old(disk)
      decreases src
    {
      PlaceableDir(disk, dst, src.entries, io);
      CopiedAll(disk, dst, src.entries);
      ok := CreateDirAll(dst, io);
      if ok {
        ok := CopyEntries(src.entries, dst, io, old(disk));
      }
    }

    /** The loop over the entries of a directory that has just been created; `start` is the disk before that. */
    method CopyEntries(es: seq<DirEntry>, dst: Path, io: Io, ghost start: Disk) returns (ok: bool)
      requires ValidEntries(es) && CopyState(start, disk, dst, es, 0, io)
      modifies this
      ensures ok <==> Placeable(start, GraftEntries(dst, es), io)
      ensures ok ==> disk == CopiedSoFar(start, dst, es, |es|)
      ensures SameOutside(dst, start, disk) && dst in disk
      ensures PartOf(Graft(dst, Dir(es)), start, disk)
      decreases es
    {
      DirectoryPart(dst, es, start);
      CopiedAll(start, dst, es);
      var i := 0;
      while i < |es|
        invariant CopyState(start, disk, dst, es, i, io)
        invariant PartOf(Graft(dst, Dir(es)), start, disk)
      {
        ghost var now := disk;
        BeforeEntry(start, now, dst, es, i, io);
        ok := CopyEntry(es[i], dst, io);
        AfterEntry(start, now, dst, es, i, io, disk, ok);
        EntryPart(dst, es, i, now, disk);
        PartsCompose(Graft(dst, Dir(es)), start, now, disk);
        if !ok { return; }
        i := i + 1;
      }
      assert es[..i] == es;
      ok := true;
    }

    /** `fs::remove_dir_all`; the directory itself goes last, so a failure leaves it and what is not removed yet. */
    method RemoveDirAll(p: Path, io: Io) returns (ok: bool)
      modifies this
      ensures ok <==> p in old(disk) && io(p)
      ensures ok ==> disk == Without(p, old(disk))
      ensures p !in old(disk) ==> disk == old(disk)
      ensures !ok && p in old(disk) ==> p in disk
      ensures forall q | q in disk :: q in old(disk) && disk[q] == old(disk)[q]
      ensures SameOutside(p, old(disk), disk)
    {
      ok := p in disk && io(p);
      if ok {
        disk := Without(p, disk);
      } else if p in disk {
        var removed: set<Path> := *;
        disk := map q | q in disk && !(p < q && q in removed) :: disk[q];
      }
    }

    /** One turn of the loop: a directory is copied recursively, anything else as a file. */
    method CopyEntry(entry: DirEntry, dst: Path, io: Io) returns (ok: bool)
      requires ValidTree(entry.tree) && ParentExists(disk, dst + [entry.name])
      modifies this
      ensures var g := Graft(dst + [entry.name], entry.tree);
              && (ok <==> Placeable(old(disk), g, io))
              && (ok ==> disk == old(disk) + g)
      ensures SameOutside(dst + [entry.name], old(disk), disk)
      ensures PartOf(Graft(dst + [entry.name], entry.tree), old(disk), disk)
      decreases entry
    {
      var child := dst + [entry.name];
      if entry.tree.Dir? {
        ok := CopyDir(entry.tree, child, io);
      } else {
        ok := CopyFile(entry.tree.content, child, io);
      }
    }
  }
}
