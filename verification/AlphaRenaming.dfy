/**
 The pass over all headers and sources as a consistent renaming (yuv-sys/build.rs:36-68): for lists
 of words, the exact condition under which it never merges two names.
 */
module AlphaRenaming {
  import opened WordRuns
  import opened WholeWord
  import opened RenameList
  import opened Renaming
  import opened Paths

  type Files = map<Path, string>

  function RenameFiles(w: CharClass, es: seq<Entry>, files: Files): Files
    requires Usable(es)
  {
    map p | p in files :: RenameText(w, es, files[p])
  }

  // ---------------------------------------------------------------- names kept apart

  function StepNames(e: Entry, names: set<string>): set<string> {
    set x | x in names :: MapRun(e.src, e.dst, x)
  }

  /** No entry, at its turn, renames a name in use to another name in use. */
  predicate CollisionFree(es: seq<Entry>, names: set<string>) {
    es != [] ==>
      && !(es[0].src in names && es[0].dst in names && es[0].src != es[0].dst)
      && CollisionFree(es[1..], StepNames(es[0], names))
  }

  ghost predicate InjectiveOn(es: seq<Entry>, names: set<string>) {
    forall x, y | x in names && y in names && Apply(es, x) == Apply(es, y) :: x == y
  }

  /** For every list, chained or not: it keeps names apart exactly when it is free of collisions. */
  lemma {:induction false} InjectiveIffCollisionFree(es: seq<Entry>, names: set<string>)
    ensures InjectiveOn(es, names) <==> CollisionFree(es, names)
  {
    if es != [] {
      var e, later := es[0], StepNames(es[0], names);
      InjectiveIffCollisionFree(es[1..], later);
      if e.src in names && e.dst in names && e.src != e.dst {
        assert Apply(es, e.src) == Apply(es, e.dst);
      } else {
        StepInjective(es, names);
      }
    }
  }

  /** A collision-free first entry neither merges names nor hides a later merge. */
  lemma StepInjective(es: seq<Entry>, names: set<string>)
    requires es != [] && !(es[0].src in names && es[0].dst in names && es[0].src != es[0].dst)
    ensures InjectiveOn(es, names) <==> InjectiveOn(es[1..], StepNames(es[0], names))
  {
    var e, later := es[0], StepNames(es[0], names);
    assert forall x | x in names :: MapRun(e.src, e.dst, x) in later;
    if InjectiveOn(es, names) {
      forall x', y' | x' in later && y' in later && Apply(es[1..], x') == Apply(es[1..], y') ensures x' == y' {
        var x :| x in names && MapRun(e.src, e.dst, x) == x';
        var y :| y in names && MapRun(e.src, e.dst, y) == y';
        assert Apply(es, x) == Apply(es, y);
      }
    }
    if InjectiveOn(es[1..], later) {
      forall x, y | x in names && y in names && Apply(es, x) == Apply(es, y) ensures x == y {
        assert MapRun(e.src, e.dst, x) == MapRun(e.src, e.dst, y);
      }
    }
  }

  predicate WordAt(w: CharClass, files: Files, p: Path, i: nat) {
    p in files && i < |Split(w, files[p])| && IsWord(w, Split(w, files[p])[i])
  }

  function RunAt(w: CharClass, files: Files, p: Path, i: nat): string
    requires p in files && i < |Split(w, files[p])|
  {
    Split(w, files[p])[i]
  }

  /** Every word used in any of the files. */
  function Vocabulary(w: CharClass, files: Files): set<string> {
    set p, i: nat | p in files && 0 <= i < |Split(w, files[p])| && WordAt(w, files, p, i) :: RunAt(w, files, p, i)
  }

  lemma Occurrence(w: CharClass, files: Files, x: string) returns (p: Path, i: nat)
    requires x in Vocabulary(w, files)
    ensures WordAt(w, files, p, i) && RunAt(w, files, p, i) == x
  {
    p, i :| p in files && 0 <= i < |Split(w, files[p])| && WordAt(w, files, p, i) && RunAt(w, files, p, i) == x;
  }

  /** Same files, same number of runs, the same text between the words, words still words. */
  ghost predicate SameShape(w: CharClass, before: Files, after: Files) {
    && after.Keys == before.Keys
    && (forall p | p in before :: |Split(w, after[p])| == |Split(w, before[p])|)
    && (forall p, i: nat | p in before && i < |Split(w, before[p])| ::
          if WordAt(w, before, p, i) then WordAt(w, after, p, i)
          else RunAt(w, after, p, i) == RunAt(w, before, p, i))
  }

  /** Two word occurrences, in the same file or not, are equal afterwards iff they were before. */
  ghost predicate NamesKeptApart(w: CharClass, before: Files, after: Files)
    requires SameShape(w, before, after)
  {
    forall p, i: nat, q, j: nat | WordAt(w, before, p, i) && WordAt(w, before, q, j) ::
      RunAt(w, after, p, i) == RunAt(w, after, q, j) <==> RunAt(w, before, p, i) == RunAt(w, before, q, j)
  }

  lemma PassKeepsShape(w: CharClass, es: seq<Entry>, files: Files)
    requires AllWords(w, es)
    ensures SameShape(w, files, RenameFiles(w, es, files))
    ensures forall p, i: nat | p in files && i < |Split(w, files[p])| ::
              RunAt(w, RenameFiles(w, es, files), p, i) == Apply(es, RunAt(w, files, p, i))
  {
    var after := RenameFiles(w, es, files);
    forall p | p in files ensures |Split(w, after[p])| == |Split(w, files[p])| {
      RenameIsWordMap(w, es, files[p]);
    }
    forall p, i: nat | p in files && i < |Split(w, files[p])|
      ensures RunAt(w, after, p, i) == Apply(es, RunAt(w, files, p, i))
      ensures if WordAt(w, files, p, i) then WordAt(w, after, p, i)
              else RunAt(w, after, p, i) == RunAt(w, files, p, i)
    {
      RenameIsWordMap(w, es, files[p]);
      SplitSound(w, files[p]);
      var r := Split(w, files[p])[i];
      assert IsRun(w, r);
      assert IsWord(w, r) <==> w(r[0]);
      ApplyKeepsOthers(w, es, r);
    }
  }

  /**
   The whole pass is a consistent renaming of all files exactly when the list is free of
   collisions on the words the files use.
   */
  lemma PassIsAlphaRenaming(w: CharClass, es: seq<Entry>, files: Files)
    requires AllWords(w, es)
    ensures SameShape(w, files, RenameFiles(w, es, files))
    ensures NamesKeptApart(w, files, RenameFiles(w, es, files)) <==> CollisionFree(es, Vocabulary(w, files))
  {
    var after, names := RenameFiles(w, es, files), Vocabulary(w, files);
    PassKeepsShape(w, es, files);
    InjectiveIffCollisionFree(es, names);
    if NamesKeptApart(w, files, after) {
      forall x, y | x in names && y in names && Apply(es, x) == Apply(es, y) ensures x == y {
        var p, i := Occurrence(w, files, x);
        var q, j := Occurrence(w, files, y);
        assert RunAt(w, after, p, i) == RunAt(w, after, q, j);
      }
    }
    if InjectiveOn(es, names) {
      forall p, i: nat, q, j: nat | WordAt(w, files, p, i) && WordAt(w, files, q, j)
        ensures RunAt(w, after, p, i) == RunAt(w, after, q, j) <==> RunAt(w, files, p, i) == RunAt(w, files, q, j)
      {
        assert RunAt(w, files, p, i) in names && RunAt(w, files, q, j) in names;
      }
    }
  }

  /** Distinct, fresh and unlisted targets are enough. */
  lemma FreshTargetsKeepApart(es: seq<Entry>, names: set<string>)
    requires NoTargetListed(es)
    requires forall d, e | d in es && e in es && d.dst == e.dst :: d.src == e.src
    requires forall e | e in es :: e.dst !in names
    ensures CollisionFree(es, names)
  {
    UnchainedListSettles(es);
    forall x, y | x in names && y in names && Apply(es, x) == Apply(es, y) ensures x == y {
      SettledIsSimultaneous(es, x);
      SettledIsSimultaneous(es, y);
      FirstMatchCases(es, x);
      FirstMatchCases(es, y);
    }
    InjectiveIffCollisionFree(es, names);
  }

  lemma {:induction false} FirstMatchCases(es: seq<Entry>, x: string)
    ensures FirstMatch(es, x) == x || exists e :: e in es && e.src == x && e.dst == FirstMatch(es, x)
  {
    if es != [] {
      if es[0].src == x {
        assert es[0] in es;
      } else {
        FirstMatchCases(es[1..], x);
      }
    }
  }
}
