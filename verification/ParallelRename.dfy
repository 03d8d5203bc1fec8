/**
 `par_iter`: the files are renamed by concurrent tasks (yuv-sys/build.rs:43-67). Each task reads its file,
 applies the entries one by one to its own buffer, and writes the buffer back; writing first empties the
 file and then fills it from the front. A schedule interleaves the steps of all tasks in any way, and each
 file may fail to be read, to be opened for writing, or to take more than some number of characters.
 */
module ParallelRename {
  import opened Paths
  import opened WordRuns
  import opened WholeWord
  import opened RenameList
  import opened Renaming
  import opened AlphaRenaming

  datatype Fault = NoFault | CannotRead | CannotOpen | WriteStops(room: nat)

  type Faults = Path -> Fault

  datatype Task =
    | NotStarted
    | Editing(content: string, next: nat)
    | Writing(content: string, written: nat)
    | Done
    | Failed

  datatype State = State(files: Files, tasks: map<Path, Task>)

  /** One step of the task for file `p`; a finished or unknown task does nothing. */
  function Step(w: CharClass, es: seq<Entry>, faults: Faults, s: State, p: Path): State
    requires Usable(es) && s.tasks.Keys <= s.files.Keys
  {
    if p !in s.tasks then s
    else
      match s.tasks[p]
      case Done => s
      case Failed => s
      case NotStarted =>
        if faults(p).CannotRead? then s.(tasks := s.tasks[p := Failed])
        else s.(tasks := s.tasks[p := Editing(s.files[p], 0)])
      case Editing(content, k) =>
        if k < |es| then s.(tasks := s.tasks[p := Editing(Replace(w, content, es[k].src, es[k].dst), k + 1)])
        else if faults(p).CannotOpen? then s.(tasks := s.tasks[p := Failed])
        else s.(files := s.files[p := ""], tasks := s.tasks[p := Writing(content, 0)])
      case Writing(content, n) =>
        if n >= |content| then s.(tasks := s.tasks[p := Done])
        else if faults(p) == WriteStops(n) then s.(tasks := s.tasks[p := Failed])
        else s.(files := s.files[p := content[..n + 1]], tasks := s.tasks[p := Writing(content, n + 1)])
  }

  function Execute(w: CharClass, es: seq<Entry>, faults: Faults, s: State, schedule: seq<Path>): State
    requires Usable(es) && s.tasks.Keys <= s.files.Keys
    decreases |schedule|
  {
    if schedule == [] then s
    else Execute(w, es, faults, Step(w, es, faults, s, schedule[0]), schedule[1..])
  }

  function Start(files: Files, selected: set<Path>): State {
    State(files, map p | p in selected :: NotStarted)
  }

  predicate Ended(t: Task) {
    t.Done? || t.Failed?
  }

  predicate AllDone(s: State) {
    forall p | p in s.tasks :: s.tasks[p].Done?
  }

  predicate AllEnded(s: State) {
    forall p | p in s.tasks :: Ended(s.tasks[p])
  }

  /** The task cannot succeed: its file is unreadable, unwritable, or too small for the renamed text. */
  predicate Fails(fault: Fault, renamed: string) {
    fault.CannotRead? || fault.CannotOpen? || (fault.WriteStops? && fault.room < |renamed|)
  }

  /** What the file holds once its task has ended. */
  function Remains(fault: Fault, original: string, renamed: string): string {
    if fault.CannotRead? || fault.CannotOpen? then original
    else if fault.WriteStops? && fault.room < |renamed| then renamed[..fault.room]
    else renamed
  }

  /**
   Where a task stands. Until it opens its file for writing the file is untouched; from then on the file
   holds what has been written of the completely renamed text.
   */
  predicate OnTrack(w: CharClass, es: seq<Entry>, fault: Fault, original: string, now: string, t: Task)
    requires Usable(es)
  {
    var renamed := RenameText(w, es, original);
    match t
    case NotStarted => now == original
    case Editing(content, k) =>
      now == original && !fault.CannotRead? && k <= |es| && RenameText(w, es[k..], content) == renamed
    case Writing(content, n) =>
      && content == renamed && n <= |content| && now == content[..n]
      && !fault.CannotRead? && !fault.CannotOpen? && (fault.WriteStops? ==> n <= fault.room)
    case Done => now == renamed && !Fails(fault, renamed)
    case Failed => now == Remains(fault, original, renamed) && Fails(fault, renamed)
  }

  predicate Consistent(w: CharClass, es: seq<Entry>, faults: Faults, files: Files, selected: set<Path>, s: State)
    requires Usable(es)
  {
    && s.files.Keys == files.Keys && s.tasks.Keys == selected <= files.Keys
    && (forall p | p in selected :: OnTrack(w, es, faults(p), files[p], s.files[p], s.tasks[p]))
    && (forall p | p in files && p !in selected :: s.files[p] == files[p])
  }

  lemma TaskOnTrack(w: CharClass, es: seq<Entry>, faults: Faults, original: string, s: State, p: Path)
    requires Usable(es) && s.tasks.Keys <= s.files.Keys && p in s.tasks
    requires OnTrack(w, es, faults(p), original, s.files[p], s.tasks[p])
    ensures var next := Step(w, es, faults, s, p);
            OnTrack(w, es, faults(p), original, next.files[p], next.tasks[p])
  {
    match s.tasks[p] {
      case NotStarted =>
        assert es[0..] == es;
      case Editing(content, k) =>
        if k < |es| {
          assert es[k..][0] == es[k] && es[k..][1..] == es[k + 1..];
        } else {
          assert es[k..] == [];
        }
      case Writing(content, n) =>
        assert content[..|content|] == content;
      case Done =>
      case Failed =>
    }
  }

  lemma StepConsistent(w: CharClass, es: seq<Entry>, faults: Faults, files: Files, selected: set<Path>, s: State,
                       p: Path)
    requires Usable(es) && Consistent(w, es, faults, files, selected, s)
    ensures Consistent(w, es, faults, files, selected, Step(w, es, faults, s, p))
  {
    if p in selected {
      TaskOnTrack(w, es, faults, files[p], s, p);
    }
  }

  lemma {:induction false} ExecuteConsistent(w: CharClass, es: seq<Entry>, faults: Faults, files: Files,
                                             selected: set<Path>, s: State, schedule: seq<Path>)
    requires Usable(es) && Consistent(w, es, faults, files, selected, s)
    ensures Consistent(w, es, faults, files, selected, Execute(w, es, faults, s, schedule))
    decreases |schedule|
  {
    if schedule != [] {
      StepConsistent(w, es, faults, files, selected, s, schedule[0]);
      ExecuteConsistent(w, es, faults, files, selected, Step(w, es, faults, s, schedule[0]), schedule[1..]);
    }
  }

  /**
   At every moment of every interleaving a file holds its old text, its completely renamed text, or a
   proper prefix of the renamed text; the prefix only while its own task is writing, or after that task
   has failed to write. Files outside the selection are untouched.
   */
  lemma EveryMoment(w: CharClass, es: seq<Entry>, faults: Faults, files: Files, selected: set<Path>,
                    schedule: seq<Path>, p: Path)
    requires Usable(es) && selected <= files.Keys && p in files
    ensures var s, renamed := Execute(w, es, faults, Start(files, selected), schedule), RenameText(w, es, files[p]);
            && s.files.Keys == files.Keys && s.tasks.Keys == selected
            && (p !in selected ==> s.files[p] == files[p])
            && (s.files[p] == files[p] || (p in selected && s.files[p] <= renamed))
            && (p in selected && s.files[p] != files[p] && s.files[p] != renamed ==>
                  s.tasks[p].Writing? || (s.tasks[p].Failed? && faults(p).WriteStops?))
            && (p in selected && s.tasks[p].Done? ==> s.files[p] == renamed)
  {
    ExecuteConsistent(w, es, faults, files, selected, Start(files, selected), schedule);
    var s := Execute(w, es, faults, Start(files, selected), schedule);
    if p in selected {
      assert OnTrack(w, es, faults(p), files[p], s.files[p], s.tasks[p]);
    }
  }

  /**
   Every interleaving in which all tasks end yields the same files: those that could be edited are renamed
   as if one after the other, a failed one keeps its old text or the part that was written. All succeed iff
   none is bound to fail.
   */
  lemma InterleavingsAgree(w: CharClass, es: seq<Entry>, faults: Faults, files: Files, selected: set<Path>,
                           schedule: seq<Path>)
    requires Usable(es) && selected <= files.Keys
    requires AllEnded(Execute(w, es, faults, Start(files, selected), schedule))
    ensures var end := Execute(w, es, faults, Start(files, selected), schedule);
            && end.files == (map p | p in files ::
                 if p in selected then Remains(faults(p), files[p], RenameFiles(w, es, files)[p]) else files[p])
            && (AllDone(end) <==> forall p | p in selected :: !Fails(faults(p), RenameFiles(w, es, files)[p]))
  {
    var end := Execute(w, es, faults, Start(files, selected), schedule);
    ExecuteConsistent(w, es, faults, files, selected, Start(files, selected), schedule);
    forall p | p in selected
      ensures end.files[p] == Remains(faults(p), files[p], RenameFiles(w, es, files)[p])
      ensures end.tasks[p].Done? <==> !Fails(faults(p), RenameFiles(w, es, files)[p])
    {
      assert OnTrack(w, es, faults(p), files[p], end.files[p], end.tasks[p]) && Ended(end.tasks[p]);
    }
  }

  // ---------------------------------------------------------------- how many turns a task needs

  /** One turn to read, one per entry, one to open, one per character, one to return; a failure comes earlier. */
  function Turns(es: seq<Entry>, fault: Fault, renamed: string): nat {
    match fault
    case CannotRead => 1
    case CannotOpen => |es| + 2
    case WriteStops(room) => |es| + 3 + if room < |renamed| then room else |renamed|
    case NoFault => |es| + 3 + |renamed|
  }

  /** The turns a task has used; `all` once it has ended. */
  function Taken(es: seq<Entry>, t: Task, all: nat): nat {
    match t
    case NotStarted => 0
    case Editing(_, k) => 1 + k
    case Writing(_, n) => |es| + 2 + n
    case Done => all
    case Failed => all
  }

  function Count(schedule: seq<Path>, p: Path): nat {
    if schedule == [] then 0 else (if schedule[0] == p then 1 else 0) + Count(schedule[1..], p)
  }

  lemma TakenSoFar(w: CharClass, es: seq<Entry>, fault: Fault, original: string, now: string, t: Task)
    requires Usable(es) && OnTrack(w, es, fault, original, now, t)
    ensures var all := Turns(es, fault, RenameText(w, es, original));
            Taken(es, t, all) <= all && (Ended(t) <==> Taken(es, t, all) == all)
  {
  }

  lemma StepTakes(w: CharClass, es: seq<Entry>, faults: Faults, original: string, s: State, p: Path)
    requires Usable(es) && s.tasks.Keys <= s.files.Keys && p in s.tasks
    requires OnTrack(w, es, faults(p), original, s.files[p], s.tasks[p])
    ensures var all, next := Turns(es, faults(p), RenameText(w, es, original)), Step(w, es, faults, s, p).tasks[p];
            Taken(es, next, all) == if Ended(s.tasks[p]) then all else Taken(es, s.tasks[p], all) + 1
  {
  }

  lemma OneTurn(w: CharClass, es: seq<Entry>, faults: Faults, files: Files, selected: set<Path>, s: State, q: Path,
                p: Path)
    requires Usable(es) && Consistent(w, es, faults, files, selected, s) && p in selected
    ensures Step(w, es, faults, s, q).tasks.Keys == selected
    ensures var all := Turns(es, faults(p), RenameText(w, es, files[p]));
            var before, after := Taken(es, s.tasks[p], all), Taken(es, Step(w, es, faults, s, q).tasks[p], all);
            before <= all && after == if q == p && before < all then before + 1 else before
  {
    TakenSoFar(w, es, faults(p), files[p], s.files[p], s.tasks[p]);
    if q == p {
      StepTakes(w, es, faults, files[p], s, p);
    }
  }

  /** Every turn given to an unfinished task brings it one step closer to its end; nothing can block it. */
  lemma {:induction false} TurnsCount(w: CharClass, es: seq<Entry>, faults: Faults, files: Files, selected: set<Path>,
                                      s: State, schedule: seq<Path>, p: Path)
    requires Usable(es) && Consistent(w, es, faults, files, selected, s) && p in selected
    ensures Execute(w, es, faults, s, schedule).tasks.Keys == selected
    ensures var all := Turns(es, faults(p), RenameText(w, es, files[p]));
            var sum := Taken(es, s.tasks[p], all) + Count(schedule, p);
            Taken(es, Execute(w, es, faults, s, schedule).tasks[p], all) == if sum <= all then sum else all
    decreases |schedule|
  {
    if schedule == [] {
      OneTurn(w, es, faults, files, selected, s, p, p);
    } else {
      StepConsistent(w, es, faults, files, selected, s, schedule[0]);
      OneTurn(w, es, faults, files, selected, s, schedule[0], p);
      TurnsCount(w, es, faults, files, selected, Step(w, es, faults, s, schedule[0]), schedule[1..], p);
    }
  }

  /** A task has ended exactly when its file has had its turns, whatever happened to the other files. */
  lemma EndsIff(w: CharClass, es: seq<Entry>, faults: Faults, files: Files, selected: set<Path>, schedule: seq<Path>,
                p: Path)
    requires Usable(es) && selected <= files.Keys && p in selected
    ensures var end := Execute(w, es, faults, Start(files, selected), schedule);
            p in end.tasks && (Ended(end.tasks[p]) <==>
                                 Count(schedule, p) >= Turns(es, faults(p), RenameText(w, es, files[p])))
  {
    var s := Start(files, selected);
    var end := Execute(w, es, faults, s, schedule);
    ExecuteConsistent(w, es, faults, files, selected, s, schedule);
    TurnsCount(w, es, faults, files, selected, s, schedule, p);
    TakenSoFar(w, es, faults(p), files[p], end.files[p], end.tasks[p]);
  }

  /** The whole loop succeeds exactly when no file is bound to fail and every file has had all its turns. */
  lemma FinishesIff(w: CharClass, es: seq<Entry>, faults: Faults, files: Files, selected: set<Path>,
                    schedule: seq<Path>)
    requires Usable(es) && selected <= files.Keys
    ensures AllDone(Execute(w, es, faults, Start(files, selected), schedule))
       <==> forall p | p in selected ::
              var renamed := RenameText(w, es, files[p]);
              !Fails(faults(p), renamed) && Count(schedule, p) >= |es| + 3 + |renamed|
  {
    var s := Start(files, selected);
    var end := Execute(w, es, faults, s, schedule);
    ExecuteConsistent(w, es, faults, files, selected, s, schedule);
    forall p | p in selected
      ensures var renamed := RenameText(w, es, files[p]);
              end.tasks[p].Done? <==> !Fails(faults(p), renamed) && Count(schedule, p) >= |es| + 3 + |renamed|
    {
      EndsIff(w, es, faults, files, selected, schedule, p);
      assert OnTrack(w, es, faults(p), files[p], end.files[p], end.tasks[p]);
    }
  }
}
