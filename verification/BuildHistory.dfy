/**
 Any number of build runs, each with its own inputs, over a fixed vendored tree: what the clone-once guard
 (yuv-sys/build.rs:83-94, 154-156) guarantees, and for which inputs.
 */
module BuildHistory {
  import opened Paths
  import opened WordRuns
  import opened RenameList
  import opened Renaming
  import opened CopyTree
  import opened BuildRun

  /** One run: what it was given, and whether it was killed at some point. */
  datatype Run = Run(given: Inputs, killed: bool)

  /** A killed run leaves the disk as it was, or as it is while the tree is copied or renamed. */
  ghost predicate KilledStep(w: CharClass, src: Tree, dst: Path, before: Disk, after: Disk, given: Inputs) {
    var copied := before + Graft(dst, src);
    || after == before
    || (dst !in before
        && (|| MidCopy(src, dst, before, after)
            || (Placeable(before, Graft(dst, src), given.io)
                && MidRename(w, Entries(given.list), Selection(copied, dst), copied, after))))
  }

  /** Run `i` takes the disk from state `i` to state `i + 1`. */
  ghost predicate StepAt(w: CharClass, src: Tree, dst: Path, disks: seq<Disk>, runs: seq<Run>, i: nat)
    requires i < |runs| < |disks|
  {
    if runs[i].killed then KilledStep(w, src, dst, disks[i], disks[i + 1], runs[i].given)
    else BuildStep(w, src, dst, disks[i], disks[i + 1], runs[i].given)
  }

  /** Disks before the first run, between runs, and after the last. */
  ghost predicate History(w: CharClass, src: Tree, dst: Path, disks: seq<Disk>, runs: seq<Run>) {
    && |disks| == |runs| + 1
    && (forall i: nat | i < |runs| :: StepAt(w, src, dst, disks, runs, i))
  }

  /** A run leaves a tree that is there alone; a tree that is not there afterwards was never begun. */
  lemma StepKeeps(w: CharClass, src: Tree, dst: Path, before: Disk, after: Disk, given: Inputs)
    requires BuildStep(w, src, dst, before, after, given)
    ensures dst in before || dst !in after ==> after == before
    ensures dst !in before && Placeable(before, Graft(dst, src), given.io) ==> dst in after
    ensures dst !in before && !Placeable(before, Graft(dst, src), given.io) && given.rm(dst) ==> after == before
  {
    GraftBelow(dst, src);
  }

  lemma KillKeeps(w: CharClass, src: Tree, dst: Path, before: Disk, after: Disk, given: Inputs)
    requires KilledStep(w, src, dst, before, after, given)
    ensures dst in before || dst !in after ==> after == before
  {
    GraftBelow(dst, src);
  }

  /** Once there, the tree is never written again, whatever the later runs do. */
  lemma {:induction false} TreeNeverTouchedAgain(w: CharClass, src: Tree, dst: Path, disks: seq<Disk>, runs: seq<Run>,
                                                 i: nat, j: nat)
    requires History(w, src, dst, disks, runs) && i <= j < |disks| && dst in disks[i]
    ensures disks[j] == disks[i]
    decreases j - i
  {
    if i < j {
      assert StepAt(w, src, dst, disks, runs, i);
      TreeNeverTouchedAgain(w, src, dst, disks, runs, i + 1, j);
    }
  }

  /** While it is not there, nothing has changed. */
  lemma {:induction false} AbsentMeansUntouched(w: CharClass, src: Tree, dst: Path, disks: seq<Disk>, runs: seq<Run>,
                                                j: nat)
    requires History(w, src, dst, disks, runs) && j < |disks| && dst !in disks[j]
    ensures disks[j] == disks[0]
  {
    if j > 0 {
      assert StepAt(w, src, dst, disks, runs, j - 1);
      if runs[j - 1].killed {
        KillKeeps(w, src, dst, disks[j - 1], disks[j], runs[j - 1].given);
      } else {
        StepKeeps(w, src, dst, disks[j - 1], disks[j], runs[j - 1].given);
      }
      AbsentMeansUntouched(w, src, dst, disks, runs, j - 1);
    }
  }

  // ---------------------------------------------------------------- which run creates the tree

  predicate CanPlace(src: Tree, dst: Path, disk: Disk, run: Run) {
    Placeable(disk, Graft(dst, src), run.given.io)
  }

  predicate NonePlaces(src: Tree, dst: Path, disk: Disk, runs: seq<Run>, m: nat)
    requires m <= |runs|
  {
    forall i: nat | i < m :: !CanPlace(src, dst, disk, runs[i])
  }

  /** Up to the first run that can place the tree, none is killed, and a copy that fails is removed again. */
  predicate Orderly(src: Tree, dst: Path, disk: Disk, runs: seq<Run>) {
    forall i: nat | i < |runs| && NonePlaces(src, dst, disk, runs, i) ::
      !runs[i].killed && (CanPlace(src, dst, disk, runs[i]) || runs[i].given.rm(dst))
  }

  /** Run `k` is the first that can copy the tree completely. */
  predicate FirstToPlace(src: Tree, dst: Path, disk: Disk, runs: seq<Run>, k: nat) {
    k < |runs| && CanPlace(src, dst, disk, runs[k]) && NonePlaces(src, dst, disk, runs, k)
  }

  /** Before the first run that can place the tree, nothing changes. */
  lemma {:induction false} AbsentUntilPlaced(w: CharClass, src: Tree, dst: Path, disks: seq<Disk>, runs: seq<Run>,
                                             m: nat)
    requires History(w, src, dst, disks, runs) && dst !in disks[0] && m <= |runs|
    requires Orderly(src, dst, disks[0], runs) && NonePlaces(src, dst, disks[0], runs, m)
    ensures disks[m] == disks[0]
  {
    if m > 0 {
      AbsentUntilPlaced(w, src, dst, disks, runs, m - 1);
      assert StepAt(w, src, dst, disks, runs, m - 1);
      StepKeeps(w, src, dst, disks[m - 1], disks[m], runs[m - 1].given);
    }
  }

  /**
   Starting without a tree, and however many runs follow: the disk is what the first run that could place
   the tree would have left on its own, with its list and its failures.
   */
  lemma CreatingRunDecides(w: CharClass, src: Tree, dst: Path, disks: seq<Disk>, runs: seq<Run>, k: nat, j: nat)
    requires History(w, src, dst, disks, runs) && dst !in disks[0] && k < j < |disks|
    requires FirstToPlace(src, dst, disks[0], runs, k) && Orderly(src, dst, disks[0], runs)
    ensures disks[k] == disks[0] && dst in disks[j]
    ensures BuildStep(w, src, dst, disks[0], disks[j], runs[k].given)
  {
    AbsentUntilPlaced(w, src, dst, disks, runs, k);
    assert StepAt(w, src, dst, disks, runs, k);
    StepKeeps(w, src, dst, disks[k], disks[k + 1], runs[k].given);
    TreeNeverTouchedAgain(w, src, dst, disks, runs, k + 1, j);
  }

  /**
   If that run can also list and edit the tree, the tree is at all times absent or finished: copied and then
   renamed once, by the list of the run that created it.
   */
  lemma UninterruptedRunsFinish(w: CharClass, src: Tree, dst: Path, disks: seq<Disk>, runs: seq<Run>, j: nat)
    requires History(w, src, dst, disks, runs) && dst !in disks[0] && j < |disks|
    requires Orderly(src, dst, disks[0], runs)
    requires forall k: nat | FirstToPlace(src, dst, disks[0], runs, k) :: Completes(src, dst, disks[0], runs[k].given)
    ensures NonePlaces(src, dst, disks[0], runs, j) ==> disks[j] == disks[0]
    ensures forall k: nat | k < j && FirstToPlace(src, dst, disks[0], runs, k) ::
              disks[j] == Finished(w, Entries(runs[k].given.list), src, dst, disks[0])
  {
    if NonePlaces(src, dst, disks[0], runs, j) {
      AbsentUntilPlaced(w, src, dst, disks, runs, j);
    }
    forall k: nat | k < j && FirstToPlace(src, dst, disks[0], runs, k)
      ensures disks[j] == Finished(w, Entries(runs[k].given.list), src, dst, disks[0])
    {
      CreatingRunDecides(w, src, dst, disks, runs, k, j);
      CompletedIsFinished(w, src, dst, disks[0], disks[j], runs[k].given);
    }
  }

  lemma CompletedIsFinished(w: CharClass, src: Tree, dst: Path, before: Disk, after: Disk, given: Inputs)
    requires dst !in before && BuildStep(w, src, dst, before, after, given) && Completes(src, dst, before, given)
    ensures after == Finished(w, Entries(given.list), src, dst, before)
  {
  }

  // ---------------------------------------------------------------- when the tree ends finished

  /** `q` is a header or source whose text the list changes. */
  predicate Renames(w: CharClass, es: seq<Entry>, dst: Path, disk: Disk, q: Path)
    requires Usable(es)
  {
    q in disk && q in Selection(disk, dst) && disk[q].Regular? && RenameText(w, es, disk[q].content) != disk[q].content
  }

  /** The run lists the tree and can edit every file that the list changes. */
  predicate EditsWhatMatters(w: CharClass, es: seq<Entry>, src: Tree, dst: Path, before: Disk, given: Inputs)
    requires Usable(es)
  {
    var copied := before + Graft(dst, src);
    forall q | q in Selection(copied, dst) && Renames(w, es, dst, copied, q) ::
      Listed(dst, copied, given) && CanEdit(copied, given.edit, q)
  }

  /** The list changes some file, and no file fails that it does not change. */
  predicate FailuresMatter(w: CharClass, es: seq<Entry>, src: Tree, dst: Path, before: Disk, given: Inputs)
    requires Usable(es)
  {
    var copied := before + Graft(dst, src);
    && (exists q :: q in Selection(copied, dst) && Renames(w, es, dst, copied, q))
    && forall q | q in Selection(copied, dst) && !CanEdit(copied, given.edit, q) :: Renames(w, es, dst, copied, q)
  }

  /** A run that leaves the finished tree edited every file its list changes. */
  lemma FinishedNeedsEdits(w: CharClass, es: seq<Entry>, src: Tree, dst: Path, before: Disk, after: Disk, given: Inputs)
    requires dst !in before && BuildStep(w, src, dst, before, after, given)
    requires Placeable(before, Graft(dst, src), given.io)
    requires Usable(es) && (given.list.Some? ==> Entries(given.list) == es)
    requires after == Finished(w, es, src, dst, before)
    ensures EditsWhatMatters(w, es, src, dst, before, given)
  {
    var copied := before + Graft(dst, src);
    forall q | q in Selection(copied, dst) && Renames(w, es, dst, copied, q)
      ensures Listed(dst, copied, given) && CanEdit(copied, given.edit, q)
    {
      assert after[q] == Regular(RenameText(w, es, copied[q].content));
    }
  }

  lemma FirstRunFinishesIff(w: CharClass, es: seq<Entry>, src: Tree, dst: Path, before: Disk, after: Disk,
                            given: Inputs)
    requires dst !in before && BuildStep(w, src, dst, before, after, given)
    requires Placeable(before, Graft(dst, src), given.io)
    requires Usable(es) && (given.list.Some? ==> Entries(given.list) == es)
    requires FailuresMatter(w, es, src, dst, before, given)
    ensures after == Finished(w, es, src, dst, before) <==> Completes(src, dst, before, given)
  {
    if after == Finished(w, es, src, dst, before) {
      FinishedNeedsEdits(w, es, src, dst, before, after, given);
    }
  }

  lemma {:induction false} EarliestToPlace(src: Tree, dst: Path, disk: Disk, runs: seq<Run>, i: nat) returns (k: nat)
    requires i < |runs| && CanPlace(src, dst, disk, runs[i])
    ensures FirstToPlace(src, dst, disk, runs, k)
  {
    k := i;
    if exists j: nat :: j < i && CanPlace(src, dst, disk, runs[j]) {
      var j: nat :| j < i && CanPlace(src, dst, disk, runs[j]);
      k := EarliestToPlace(src, dst, disk, runs, j);
    }
  }

  /** The run that creates the tree is given this list, if it can read one. */
  ghost predicate OneList(src: Tree, dst: Path, disk: Disk, runs: seq<Run>, es: seq<Entry>) {
    forall k: nat | FirstToPlace(src, dst, disk, runs, k) ::
      runs[k].given.list.Some? ==> Entries(runs[k].given.list) == es
  }

  /** After the last run the tree is absent, and nothing has changed, or it is finished for this list. */
  ghost predicate AbsentOrFinished(w: CharClass, es: seq<Entry>, src: Tree, dst: Path, disks: seq<Disk>)
    requires Usable(es) && disks != []
  {
    var last := disks[|disks| - 1];
    last == disks[0] || last == Finished(w, es, src, dst, disks[0])
  }

  lemma AbsentOrPlaced(w: CharClass, src: Tree, dst: Path, disks: seq<Disk>, runs: seq<Run>)
    requires History(w, src, dst, disks, runs) && dst !in disks[0] && Orderly(src, dst, disks[0], runs)
    ensures disks[|runs|] == disks[0] || exists k: nat :: FirstToPlace(src, dst, disks[0], runs, k)
  {
    if NonePlaces(src, dst, disks[0], runs, |runs|) {
      AbsentUntilPlaced(w, src, dst, disks, runs, |runs|);
    } else {
      var i: nat :| i < |runs| && CanPlace(src, dst, disks[0], runs[i]);
      var k := EarliestToPlace(src, dst, disks[0], runs, i);
    }
  }

  /**
   Starting without a tree, with one list and orderly runs: in every single history the tree ends absent or
   finished exactly when the first run that can place it, if there is one, has a readable list, two listable
   directories and only editable files, up to failures on files that the list does not change.
   */
  lemma OneHistoryFinishedIff(w: CharClass, src: Tree, dst: Path, disks: seq<Disk>, runs: seq<Run>, es: seq<Entry>)
    requires History(w, src, dst, disks, runs) && dst !in disks[0] && Usable(es)
    requires Orderly(src, dst, disks[0], runs) && OneList(src, dst, disks[0], runs, es)
    requires forall k: nat | FirstToPlace(src, dst, disks[0], runs, k) ::
               FailuresMatter(w, es, src, dst, disks[0], runs[k].given)
    ensures AbsentOrFinished(w, es, src, dst, disks)
       <==> forall k: nat | FirstToPlace(src, dst, disks[0], runs, k) :: Completes(src, dst, disks[0], runs[k].given)
  {
    var n := |runs|;
    forall k: nat | FirstToPlace(src, dst, disks[0], runs, k)
      ensures disks[n] != disks[0]
      ensures disks[n] == Finished(w, es, src, dst, disks[0]) <==> Completes(src, dst, disks[0], runs[k].given)
    {
      CreatingRunDecides(w, src, dst, disks, runs, k, n);
      FirstRunFinishesIff(w, es, src, dst, disks[0], disks[n], runs[k].given);
    }
    AbsentOrPlaced(w, src, dst, disks, runs);
  }

  // ---------------------------------------------------------------- which inputs guarantee a finished tree

  /** The list changes no header or source. */
  predicate ChangesNothing(w: CharClass, es: seq<Entry>, dst: Path, copied: Disk)
    requires Usable(es)
  {
    forall q | q in Selection(copied, dst) :: !Renames(w, es, dst, copied, q)
  }

  /** A failing write could empty the file: it cannot be edited, is regular and holds something. */
  predicate CanBeTorn(copied: Disk, given: Inputs, q: Path) {
    !CanEdit(copied, given.edit, q) && q in copied && copied[q].Regular? && copied[q].content != ""
  }

  /**
   The run gets to its end; or its list changes nothing, and if the pass is reached at all no write that
   fails can tear a file.
   */
  predicate Guarantees(w: CharClass, es: seq<Entry>, src: Tree, dst: Path, before: Disk, given: Inputs)
    requires Usable(es)
  {
    var copied := before + Graft(dst, src);
    || Completes(src, dst, before, given)
    || (ChangesNothing(w, es, dst, copied)
        && (Listed(dst, copied, given) ==> forall q | q in Selection(copied, dst) :: !CanBeTorn(copied, given, q)))
  }

  lemma UnchangedIsRenamed(w: CharClass, es: seq<Entry>, selected: set<Path>, disk: Disk)
    requires Usable(es)
    requires forall q | q in selected && q in disk && disk[q].Regular? ::
               RenameText(w, es, disk[q].content) == disk[q].content
    ensures RenamePaths(w, es, selected, disk) == disk
  {
  }

  lemma UntornIsUnchanged(w: CharClass, es: seq<Entry>, dst: Path, copied: Disk, after: Disk, given: Inputs)
    requires Usable(es) && ChangesNothing(w, es, dst, copied)
    requires forall q | q in Selection(copied, dst) :: !CanBeTorn(copied, given, q)
    requires PartlyRenamed(w, es, Selection(copied, dst), given.edit, copied, after)
    ensures after == copied
  {
    forall q | q in copied ensures after[q] == copied[q] {
      if q in Selection(copied, dst) {
        assert !Renames(w, es, dst, copied, q) && !CanBeTorn(copied, given, q);
      }
    }
  }

  lemma GuaranteedFinishes(w: CharClass, es: seq<Entry>, src: Tree, dst: Path, before: Disk, after: Disk,
                           given: Inputs)
    requires dst !in before && Usable(es) && (given.list.Some? ==> Entries(given.list) == es)
    requires Placeable(before, Graft(dst, src), given.io) && BuildStep(w, src, dst, before, after, given)
    requires Guarantees(w, es, src, dst, before, given)
    ensures after == Finished(w, es, src, dst, before)
  {
    var copied := before + Graft(dst, src);
    if Completes(src, dst, before, given) {
      CompletedIsFinished(w, src, dst, before, after, given);
    } else {
      forall q | q in Selection(copied, dst) && q in copied && copied[q].Regular?
        ensures RenameText(w, es, copied[q].content) == copied[q].content
      {
        assert !Renames(w, es, dst, copied, q);
      }
      UnchangedIsRenamed(w, es, Selection(copied, dst), copied);
      if Listed(dst, copied, given) {
        UntornIsUnchanged(w, es, dst, copied, after, given);
      }
    }
  }

  lemma RenamedDiffers(w: CharClass, es: seq<Entry>, dst: Path, copied: Disk, q: Path)
    requires Usable(es) && Renames(w, es, dst, copied, q)
    ensures RenamePaths(w, es, Selection(copied, dst), copied) != copied
  {
    assert RenamePaths(w, es, Selection(copied, dst), copied)[q] != copied[q];
  }

  /** The copy as it stands may be what a run leaves that does not get to its end. */
  lemma CopyMayStay(w: CharClass, src: Tree, dst: Path, before: Disk, given: Inputs)
    requires dst !in before && Placeable(before, Graft(dst, src), given.io) && !Completes(src, dst, before, given)
    ensures BuildStep(w, src, dst, before, before + Graft(dst, src), given)
  {
  }

  lemma TornMayStay(w: CharClass, es: seq<Entry>, src: Tree, dst: Path, before: Disk, given: Inputs, q: Path)
    returns (after: Disk)
    requires dst !in before && Placeable(before, Graft(dst, src), given.io) && Usable(es)
    requires given.list.Some? ==> Entries(given.list) == es
    requires var copied := before + Graft(dst, src);
             && Listed(dst, copied, given) && q in Selection(copied, dst)
             && CanBeTorn(copied, given, q) && !Renames(w, es, dst, copied, q)
    ensures BuildStep(w, src, dst, before, after, given) && after != Finished(w, es, src, dst, before)
  {
    var copied := before + Graft(dst, src);
    var text := copied[q].content;
    after := copied[q := Regular("")];
    assert "" < RenameText(w, es, text) == text;
    assert PartlyRenamed(w, es, Selection(copied, dst), given.edit, copied, after);
    assert Finished(w, es, src, dst, before)[q] == Regular(text);
  }

  /** Without the guarantee, some outcome that the inputs allow is not the finished tree. */
  lemma UnfinishedOutcome(w: CharClass, es: seq<Entry>, src: Tree, dst: Path, before: Disk, given: Inputs)
    returns (after: Disk)
    requires dst !in before && Usable(es) && (given.list.Some? ==> Entries(given.list) == es)
    requires Placeable(before, Graft(dst, src), given.io) && !Guarantees(w, es, src, dst, before, given)
    ensures BuildStep(w, src, dst, before, after, given) && after != Finished(w, es, src, dst, before)
  {
    var copied := before + Graft(dst, src);
    if ChangesNothing(w, es, dst, copied) {
      var q :| q in Selection(copied, dst) && CanBeTorn(copied, given, q);
      after := TornMayStay(w, es, src, dst, before, given, q);
    } else {
      var q :| q in Selection(copied, dst) && Renames(w, es, dst, copied, q);
      after := copied;
      CopyMayStay(w, src, dst, before, given);
      RenamedDiffers(w, es, dst, copied, q);
    }
  }

  ghost predicate HistoryFrom(w: CharClass, src: Tree, dst: Path, before: Disk, disks: seq<Disk>, runs: seq<Run>) {
    History(w, src, dst, disks, runs) && disks[0] == before
  }

  /** A run may leave the disk alone if the tree is there, or cannot be placed. */
  lemma IdleStep(w: CharClass, src: Tree, dst: Path, disk: Disk, given: Inputs)
    requires dst in disk || !Placeable(disk, Graft(dst, src), given.io)
    ensures BuildStep(w, src, dst, disk, disk, given) && KilledStep(w, src, dst, disk, disk, given)
  {
  }

  /** Any outcome of the first run that can place the tree is the end of some history. */
  lemma HistoryWith(w: CharClass, src: Tree, dst: Path, before: Disk, runs: seq<Run>, k: nat, after: Disk)
    returns (disks: seq<Disk>)
    requires dst !in before && Orderly(src, dst, before, runs) && FirstToPlace(src, dst, before, runs, k)
    requires BuildStep(w, src, dst, before, after, runs[k].given)
    ensures HistoryFrom(w, src, dst, before, disks, runs) && disks[|disks| - 1] == after
  {
    StepKeeps(w, src, dst, before, after, runs[k].given);
    disks := seq(|runs| + 1, i => if i <= k then before else after);
    forall i: nat | i < |runs| ensures StepAt(w, src, dst, disks, runs, i) {
      if i < k {
        assert !CanPlace(src, dst, before, runs[i]);
        IdleStep(w, src, dst, before, runs[i].given);
      } else if i == k {
        assert !runs[k].killed;
      } else {
        IdleStep(w, src, dst, after, runs[i].given);
      }
    }
  }

  /**
   Starting without a tree, with orderly runs and one list: every history ends with the tree absent or
   finished exactly when the first run that can place the tree, if there is one, guarantees it.
   */
  lemma FinishedIff(w: CharClass, src: Tree, dst: Path, before: Disk, runs: seq<Run>, es: seq<Entry>)
    requires dst !in before && Usable(es) && Orderly(src, dst, before, runs) && OneList(src, dst, before, runs, es)
    ensures (forall disks | HistoryFrom(w, src, dst, before, disks, runs) ::
               AbsentOrFinished(w, es, src, dst, disks))
       <==> forall k: nat | FirstToPlace(src, dst, before, runs, k) ::
              Guarantees(w, es, src, dst, before, runs[k].given)
  {
    if forall k: nat | FirstToPlace(src, dst, before, runs, k) :: Guarantees(w, es, src, dst, before, runs[k].given) {
      forall disks | HistoryFrom(w, src, dst, before, disks, runs) ensures AbsentOrFinished(w, es, src, dst, disks) {
        GuaranteedHistory(w, src, dst, disks, runs, es);
      }
    } else {
      var k: nat :| FirstToPlace(src, dst, before, runs, k) && !Guarantees(w, es, src, dst, before, runs[k].given);
      var after := UnfinishedOutcome(w, es, src, dst, before, runs[k].given);
      StepKeeps(w, src, dst, before, after, runs[k].given);
      var disks := HistoryWith(w, src, dst, before, runs, k, after);
      assert !AbsentOrFinished(w, es, src, dst, disks);
    }
  }

  lemma GuaranteedHistory(w: CharClass, src: Tree, dst: Path, disks: seq<Disk>, runs: seq<Run>, es: seq<Entry>)
    requires History(w, src, dst, disks, runs) && dst !in disks[0] && Usable(es)
    requires Orderly(src, dst, disks[0], runs) && OneList(src, dst, disks[0], runs, es)
    requires forall k: nat | FirstToPlace(src, dst, disks[0], runs, k) ::
               Guarantees(w, es, src, dst, disks[0], runs[k].given)
    ensures AbsentOrFinished(w, es, src, dst, disks)
  {
    AbsentOrPlaced(w, src, dst, disks, runs);
    if disks[|runs|] != disks[0] {
      var k: nat :| FirstToPlace(src, dst, disks[0], runs, k);
      CreatingRunDecides(w, src, dst, disks, runs, k, |runs|);
      GuaranteedFinishes(w, es, src, dst, disks[0], disks[|runs|], runs[k].given);
    }
  }

  // ---------------------------------------------------------------- which list the tree is finished for

  /** The two lists rename this file alike. */
  predicate Alike(w: CharClass, ds: seq<Entry>, es: seq<Entry>, disk: Disk, q: Path)
    requires Usable(ds) && Usable(es)
  {
    q in disk && disk[q].Regular? ==> RenameText(w, ds, disk[q].content) == RenameText(w, es, disk[q].content)
  }

  lemma RenamedAlikeIff(w: CharClass, ds: seq<Entry>, es: seq<Entry>, selected: set<Path>, disk: Disk)
    requires Usable(ds) && Usable(es) && selected <= disk.Keys
    ensures RenamePaths(w, ds, selected, disk) == RenamePaths(w, es, selected, disk)
       <==> forall q | q in selected :: Alike(w, ds, es, disk, q)
  {
    var a, b := RenamePaths(w, ds, selected, disk), RenamePaths(w, es, selected, disk);
    forall q | q in disk
      ensures a[q] == b[q] <==> q in selected ==> Alike(w, ds, es, disk, q)
    {
    }
    if forall q | q in selected :: Alike(w, ds, es, disk, q) {
      assert a == b;
    } else {
      var q :| q in selected && !Alike(w, ds, es, disk, q);
      assert a[q] != b[q];
    }
  }

  /** The two lists rename every header and source alike. */
  predicate ListsAgree(w: CharClass, ds: seq<Entry>, es: seq<Entry>, dst: Path, copied: Disk)
    requires Usable(ds) && Usable(es)
  {
    forall q | q in Selection(copied, dst) :: Alike(w, ds, es, copied, q)
  }

  lemma FinishedAlikeIff(w: CharClass, ds: seq<Entry>, es: seq<Entry>, src: Tree, dst: Path, before: Disk)
    requires Usable(ds) && Usable(es)
    ensures Finished(w, ds, src, dst, before) == Finished(w, es, src, dst, before)
       <==> ListsAgree(w, ds, es, dst, before + Graft(dst, src))
  {
    var copied := before + Graft(dst, src);
    SelectionExists(copied, dst);
    RenamedAlikeIff(w, ds, es, Selection(copied, dst), copied);
  }

  /**
   The list of a later run is never applied: the tree is finished for a list exactly when that list renames
   every header and source as the list of the run that created the tree does.
   */
  lemma LatestListIff(w: CharClass, src: Tree, dst: Path, disks: seq<Disk>, runs: seq<Run>, k: nat, j: nat,
                      es: seq<Entry>)
    requires History(w, src, dst, disks, runs) && dst !in disks[0] && k < j < |disks| && Usable(es)
    requires FirstToPlace(src, dst, disks[0], runs, k) && Orderly(src, dst, disks[0], runs)
    requires Completes(src, dst, disks[0], runs[k].given)
    ensures disks[j] == Finished(w, es, src, dst, disks[0])
       <==> ListsAgree(w, Entries(runs[k].given.list), es, dst, disks[0] + Graft(dst, src))
  {
    CreatingRunDecides(w, src, dst, disks, runs, k, j);
    CompletedIsFinished(w, src, dst, disks[0], disks[j], runs[k].given);
    FinishedAlikeIff(w, Entries(runs[k].given.list), es, src, dst, disks[0]);
  }

  /**
   The guarantee does fail: if the creating run stops after the copy (an unreadable list, a listed file
   without an extension), the tree stays the plain copy for good, and that is the finished tree for a list
   exactly when the list changes no header or source.
   */
  lemma StopAfterCloneStaysUnrenamed(w: CharClass, src: Tree, dst: Path, disks: seq<Disk>, runs: seq<Run>,
                                     k: nat, j: nat, es: seq<Entry>)
    requires History(w, src, dst, disks, runs) && dst !in disks[0] && k < j < |disks| && Usable(es)
    requires FirstToPlace(src, dst, disks[0], runs, k) && Orderly(src, dst, disks[0], runs)
    requires !Listed(dst, disks[0] + Graft(dst, src), runs[k].given)
    ensures disks[j] == disks[0] + Graft(dst, src) != disks[0]
    ensures disks[j] == Finished(w, es, src, dst, disks[0])
       <==> forall q | q in Selection(disks[0] + Graft(dst, src), dst) ::
              !Renames(w, es, dst, disks[0] + Graft(dst, src), q)
  {
    var copied := disks[0] + Graft(dst, src);
    CreatingRunDecides(w, src, dst, disks, runs, k, j);
    forall q | q in Selection(copied, dst) && Renames(w, es, dst, copied, q)
      ensures Finished(w, es, src, dst, disks[0])[q] != copied[q]
    {
    }
  }
}
