/**
 The concurrent pass on the disk of the build script (yuv-sys/build.rs:43-67, 154-156): every interleaving
 of the tasks does to the disk what the run of the script relies on.
 */
module DiskPass {
  import opened Paths
  import opened WordRuns
  import opened RenameList
  import opened Renaming
  import opened AlphaRenaming
  import opened ParallelRename
  import opened CopyTree
  import opened BuildRun
  import opened BuildHistory

  /** The texts of the selected paths; a directory among them has none that could be read. */
  function Texts(disk: Disk, selected: set<Path>): Files
    requires selected <= disk.Keys
  {
    map p | p in selected :: if disk[p].Regular? then disk[p].content else ""
  }

  /** The disk with the texts of its files exchanged. */
  function WithTexts(disk: Disk, files: Files): Disk {
    map q | q in disk :: if q in files && disk[q].Regular? then Regular(files[q]) else disk[q]
  }

  /** The faults say of each selected path what `io` says: a task fails iff the path cannot be edited. */
  predicate FaultAt(w: CharClass, es: seq<Entry>, disk: Disk, io: Io, p: Path, fault: Fault)
    requires Usable(es) && p in disk
  {
    if disk[p].Directory? then fault.CannotRead?
    else Fails(fault, RenameText(w, es, disk[p].content)) <==> !io(p)
  }

  ghost predicate FaultsFit(w: CharClass, es: seq<Entry>, disk: Disk, selected: set<Path>, io: Io, faults: Faults)
    requires Usable(es) && selected <= disk.Keys
  {
    forall p | p in selected :: FaultAt(w, es, disk, io, p, faults(p))
  }

  function After(w: CharClass, es: seq<Entry>, disk: Disk, selected: set<Path>, faults: Faults, schedule: seq<Path>)
    : State
    requires Usable(es) && selected <= disk.Keys
  {
    Execute(w, es, faults, Start(Texts(disk, selected), selected), schedule)
  }

  lemma FaultMeans(w: CharClass, es: seq<Entry>, disk: Disk, io: Io, p: Path, fault: Fault)
    requires Usable(es) && p in disk && FaultAt(w, es, disk, io, p, fault)
    ensures var text := if disk[p].Regular? then disk[p].content else "";
            var renamed := RenameText(w, es, text);
            && (Fails(fault, renamed) <==> !CanEdit(disk, io, p))
            && (disk[p].Regular? ==>
                  EditedOrNot(w, es, CanEdit(disk, io, p), disk[p], Regular(Remains(fault, text, renamed)))
                  && (CanEdit(disk, io, p) ==> Regular(Remains(fault, text, renamed)) == RenameNode(w, es, disk[p])))
  {
  }

  /**
   However the tasks interleave: once all have ended the disk is one that `RenameSymbols` may leave, and if
   all have succeeded it is the disk with exactly the selected files renamed. They succeed iff every
   selected path can be edited.
   */
  lemma EveryEndFits(w: CharClass, es: seq<Entry>, disk: Disk, selected: set<Path>, io: Io, faults: Faults,
                     schedule: seq<Path>)
    requires Usable(es) && selected <= disk.Keys && FaultsFit(w, es, disk, selected, io, faults)
    requires AllEnded(After(w, es, disk, selected, faults, schedule))
    ensures var end := After(w, es, disk, selected, faults, schedule);
            && PartlyRenamed(w, es, selected, io, disk, WithTexts(disk, end.files))
            && (AllDone(end) <==> forall p | p in selected :: CanEdit(disk, io, p))
            && (AllDone(end) ==> WithTexts(disk, end.files) == RenamePaths(w, es, selected, disk))
  {
    var end := After(w, es, disk, selected, faults, schedule);
    InterleavingsAgree(w, es, faults, Texts(disk, selected), selected, schedule);
    forall p | p in selected ensures FaultAt(w, es, disk, io, p, faults(p)) {
      FaultMeans(w, es, disk, io, p, faults(p));
    }
    forall q | q in disk && q in selected
      ensures EditedOrNot(w, es, CanEdit(disk, io, q), disk[q], WithTexts(disk, end.files)[q])
      ensures CanEdit(disk, io, q) ==> WithTexts(disk, end.files)[q] == RenameNode(w, es, disk[q])
    {
      FaultMeans(w, es, disk, io, q, faults(q));
    }
  }

  /**
   On the tree just copied, every interleaving that succeeds leaves the finished tree, so the result does
   not depend on the schedule.
   */
  lemma AnyInterleavingFinishes(w: CharClass, es: seq<Entry>, src: Tree, dst: Path, before: Disk, io: Io,
                                faults: Faults, schedule: seq<Path>)
    requires Usable(es)
    ensures var copied := before + Graft(dst, src);
            Selection(copied, dst) <= copied.Keys
    ensures var copied, sel := before + Graft(dst, src), Selection(before + Graft(dst, src), dst);
            FaultsFit(w, es, copied, sel, io, faults) && AllDone(After(w, es, copied, sel, faults, schedule)) ==>
              WithTexts(copied, After(w, es, copied, sel, faults, schedule).files) == Finished(w, es, src, dst, before)
  {
    var copied := before + Graft(dst, src);
    var sel := Selection(copied, dst);
    SelectionExists(copied, dst);
    if FaultsFit(w, es, copied, sel, io, faults) && AllDone(After(w, es, copied, sel, faults, schedule)) {
      EveryEndFits(w, es, copied, sel, io, faults, schedule);
    }
  }

  /** At every moment of every interleaving, each selected file is old, or the front part of its renamed text. */
  lemma EveryMomentOnDisk(w: CharClass, es: seq<Entry>, disk: Disk, selected: set<Path>, faults: Faults,
                          schedule: seq<Path>)
    requires Usable(es) && selected <= disk.Keys
    requires forall p | p in selected && disk[p].Directory? :: faults(p).CannotRead?
    ensures MidRename(w, es, selected, disk, WithTexts(disk, After(w, es, disk, selected, faults, schedule).files))
  {
    var texts := Texts(disk, selected);
    ExecuteConsistent(w, es, faults, texts, selected, Start(texts, selected), schedule);
    forall q | q in selected && disk[q].Regular?
      ensures After(w, es, disk, selected, faults, schedule).files[q] == disk[q].content
           || After(w, es, disk, selected, faults, schedule).files[q] <= RenameText(w, es, disk[q].content)
    {
      EveryMoment(w, es, faults, texts, selected, schedule, q);
    }
  }

  /** A run killed during the pass, at whatever moment, is a step that the history of runs allows. */
  lemma KilledInRename(w: CharClass, src: Tree, dst: Path, before: Disk, given: Inputs, faults: Faults,
                       schedule: seq<Path>)
    requires dst !in before && Placeable(before, Graft(dst, src), given.io)
    requires var copied := before + Graft(dst, src);
             Selection(copied, dst) <= copied.Keys
             && forall p | p in Selection(copied, dst) && copied[p].Directory? :: faults(p).CannotRead?
    ensures var copied := before + Graft(dst, src);
            var now := After(w, Entries(given.list), copied, Selection(copied, dst), faults, schedule);
            KilledStep(w, src, dst, before, WithTexts(copied, now.files), given)
  {
    var copied := before + Graft(dst, src);
    EveryMomentOnDisk(w, Entries(given.list), copied, Selection(copied, dst), faults, schedule);
  }
}
