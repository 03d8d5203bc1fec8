/**
 What the pass of a list of the shipped form makes of each word occurrence in all headers and sources
 (yuv-sys/build.rs:43-67), and when that is a consistent renaming.
 */
module ConsistentRenaming {
  import opened Paths
  import opened WordRuns
  import opened WholeWord
  import opened RenameList
  import opened Renaming
  import opened AlphaRenaming
  import opened PrefixUndo
  import opened RepeatPass
  import opened RunSubstitution

  // ---------------------------------------------------------------- where a run stands afterwards

  /** The position of run `i` after the pass: behind every piece before it and its own pasted prefix. */
  function Place(w: CharClass, es: seq<Entry>, rs: seq<string>, i: nat): nat
    requires i < |rs|
  {
    var piece := |Piece(MarkAt(w, es, rs), rs[0])|;
    if i == 0 then piece - 1 else piece + Place(w, es, rs[1..], i - 1)
  }

  /** The run itself: a glued prefix becomes part of it, a pasted one stands in front of it. */
  function RunMarked(m: Mark, x: string): string {
    if m.Glued? then FNC_PREFIX + x else x
  }

  lemma {:induction false} PlaceHolds(w: CharClass, es: seq<Entry>, rs: seq<string>, i: nat)
    requires i < |rs|
    ensures Place(w, es, rs, i) < |Marked(w, es, rs)|
    ensures Marked(w, es, rs)[Place(w, es, rs, i)] == RunMarked(MarkAt(w, es, rs[i..]), rs[i])
  {
    var piece := Piece(MarkAt(w, es, rs), rs[0]);
    if i == 0 {
      assert rs[0..] == rs;
    } else {
      PlaceHolds(w, es, rs[1..], i - 1);
      assert rs[1..][i - 1..] == rs[i..];
      assert Marked(w, es, rs) == piece + Marked(w, es, rs[1..]);
    }
  }

  /** The runs keep their order. */
  lemma {:induction false} PlacesGrow(w: CharClass, es: seq<Entry>, rs: seq<string>, i: nat, j: nat)
    requires i < j < |rs|
    ensures Place(w, es, rs, i) < Place(w, es, rs, j)
  {
    if i > 0 {
      PlacesGrow(w, es, rs[1..], i - 1, j - 1);
    }
  }

  /** What the pass leaves at `k`: a run in its place, or one of the two runs pasted in front of the run `i`. */
  lemma {:induction false} EveryPlace(w: CharClass, es: seq<Entry>, rs: seq<string>, k: nat) returns (i: nat)
    requires k < |Marked(w, es, rs)|
    ensures i < |rs|
    ensures var out, at, m := Marked(w, es, rs), Place(w, es, rs, i), MarkAt(w, es, rs[i..]);
            || k == at
            || (m.Pasted? && k == at - 1 && out[k] == PASTE)
            || (m.Pasted? && k == at - 2 && out[k] == FNC_PREFIX)
  {
    var piece := Piece(MarkAt(w, es, rs), rs[0]);
    if k < |piece| {
      i := 0;
      assert rs[0..] == rs;
    } else {
      i := EveryPlace(w, es, rs[1..], k - |piece|);
      assert rs[1..][i..] == rs[i + 1..];
      i := i + 1;
    }
  }

  lemma PassPlaces(w: CharClass, es: seq<Entry>, t: string, i: nat)
    requires ShippedForm(w, es) && i < |Split(w, t)|
    ensures Usable(es)
    ensures var rs, out := Split(w, t), Split(w, RenameText(w, es, t));
            Place(w, es, rs, i) < |out| && out[Place(w, es, rs, i)] == RunMarked(MarkAt(w, es, rs[i..]), rs[i])
  {
    ShippedPassMarks(w, es, t);
    PlaceHolds(w, es, Split(w, t), i);
  }

  // ---------------------------------------------------------------- all files

  function MarkOf(w: CharClass, es: seq<Entry>, files: Files, p: Path, i: nat): Mark
    requires p in files && i < |Split(w, files[p])|
  {
    MarkAt(w, es, Split(w, files[p])[i..])
  }

  /** The run of the renamed file that stands where run `i` of the file went. */
  function RunAfter(w: CharClass, es: seq<Entry>, files: Files, p: Path, i: nat): string
    requires ShippedForm(w, es) && p in files && i < |Split(w, files[p])|
  {
    PassPlaces(w, es, files[p], i);
    RunAt(w, RenameFiles(w, es, files), p, Place(w, es, Split(w, files[p]), i))
  }

  lemma RunMarkedIff(m: Mark, x: string, k: Mark, y: string)
    requires !(FNC_PREFIX <= x) && !(FNC_PREFIX <= y)
    ensures RunMarked(m, x) == RunMarked(k, y) <==> (m.Glued? <==> k.Glued?) && x == y
  {
    assert FNC_PREFIX <= FNC_PREFIX + x && FNC_PREFIX <= FNC_PREFIX + y;
    assert (FNC_PREFIX + x)[|FNC_PREFIX|..] == x && (FNC_PREFIX + y)[|FNC_PREFIX|..] == y;
  }

  /** The two occurrences are the same word afterwards iff they were before. */
  predicate KeptApartAt(w: CharClass, es: seq<Entry>, files: Files, p: Path, i: nat, q: Path, j: nat)
    requires ShippedForm(w, es) && WordAt(w, files, p, i) && WordAt(w, files, q, j)
  {
    RunAfter(w, es, files, p, i) == RunAfter(w, es, files, q, j) <==> RunAt(w, files, p, i) == RunAt(w, files, q, j)
  }

  /** If the two occurrences are the same word, a name that is glued a prefix begins at both or at neither. */
  predicate AlikeAt(w: CharClass, es: seq<Entry>, files: Files, p: Path, i: nat, q: Path, j: nat)
    requires WordAt(w, files, p, i) && WordAt(w, files, q, j)
  {
    RunAt(w, files, p, i) == RunAt(w, files, q, j) ==>
      (MarkOf(w, es, files, p, i).Glued? <==> MarkOf(w, es, files, q, j).Glued?)
  }

  /** Two words that differ never become the same, and equal ones stay so iff both or neither are glued a prefix. */
  lemma SameWordAfterIff(w: CharClass, es: seq<Entry>, files: Files, p: Path, i: nat, q: Path, j: nat)
    requires ShippedForm(w, es) && WordAt(w, files, p, i) && WordAt(w, files, q, j)
    requires Unprefixed(w, files[p]) && Unprefixed(w, files[q])
    ensures RunAfter(w, es, files, p, i) == RunAfter(w, es, files, q, j)
       <==> RunAt(w, files, p, i) == RunAt(w, files, q, j) && AlikeAt(w, es, files, p, i, q, j)
  {
    var x, y := RunAt(w, files, p, i), RunAt(w, files, q, j);
    assert x in Split(w, files[p]) && y in Split(w, files[q]);
    PassPlaces(w, es, files[p], i);
    PassPlaces(w, es, files[q], j);
    RunMarkedIff(MarkOf(w, es, files, p, i), x, MarkOf(w, es, files, q, j), y);
  }

  /** Between the words, and outside every listed name, nothing changes. */
  lemma BetweenWordsUnchanged(w: CharClass, es: seq<Entry>, files: Files, p: Path, i: nat)
    requires ShippedForm(w, es) && p in files && i < |Split(w, files[p])| && !WordAt(w, files, p, i)
    ensures RunAfter(w, es, files, p, i) == RunAt(w, files, p, i)
  {
    var rs := Split(w, files[p]);
    ShippedHasNoChains(w, es);
    SplitSound(w, files[p]);
    IsRunsTail(w, rs, i);
    assert IsRun(w, rs[i]) && rs[i..][0] == rs[i];
    BetweenWordsKept(w, es, rs[i..]);
    PassPlaces(w, es, files[p], i);
  }

  ghost predicate AllUnprefixed(w: CharClass, files: Files) {
    forall p | p in files :: Unprefixed(w, files[p])
  }

  /** In the renamed files, two word occurrences are the same word iff they were before. */
  ghost predicate RenamedConsistently(w: CharClass, es: seq<Entry>, files: Files)
    requires ShippedForm(w, es)
  {
    forall p, i: nat, q, j: nat | WordAt(w, files, p, i) && WordAt(w, files, q, j) ::
      KeptApartAt(w, es, files, p, i, q, j)
  }

  ghost predicate UsedAlike(w: CharClass, es: seq<Entry>, files: Files) {
    forall p, i: nat, q, j: nat | WordAt(w, files, p, i) && WordAt(w, files, q, j) :: AlikeAt(w, es, files, p, i, q, j)
  }

  /**
   Over files that use no prefixed name, the pass of a list of the shipped form is a consistent renaming
   exactly when each word is used alike: a glued name begins wherever the word stands, or nowhere. A pasted
   prefix never matters, because it leaves the word itself as it was.
   */
  lemma ConsistentIffUsedAlike(w: CharClass, es: seq<Entry>, files: Files)
    requires ShippedForm(w, es) && AllUnprefixed(w, files)
    ensures RenamedConsistently(w, es, files) <==> UsedAlike(w, es, files)
  {
    forall p, i: nat, q, j: nat | WordAt(w, files, p, i) && WordAt(w, files, q, j)
      ensures KeptApartAt(w, es, files, p, i, q, j) <==> AlikeAt(w, es, files, p, i, q, j)
    {
      SameWordAfterIff(w, es, files, p, i, q, j);
    }
  }

  // ---------------------------------------------------------------- which lists are always consistent

  /** A line that is glued a prefix, and that can occur in unprefixed files, has a single word for its name. */
  predicate GluesSingleWords(w: CharClass, es: seq<Entry>) {
    forall e | e in es && e.dst == FNC_PREFIX + e.src && Unprefixed(w, e.src) :: IsWord(w, e.src)
  }

  /** Where a run is glued, a line glues it whose name uses no prefixed word unless the text does. */
  lemma GluedBy(w: CharClass, es: seq<Entry>, rs: seq<string>) returns (e: Entry)
    requires AllWordBounded(w, es) && MarkAt(w, es, rs).Glued?
    requires forall r | r in rs :: !(FNC_PREFIX <= r)
    ensures e in es && e.dst == FNC_PREFIX + e.src && Split(w, e.src) <= rs && Unprefixed(w, e.src)
  {
    FirstAtSound(w, es, rs);
    e := FirstAt(w, es, rs).value;
    forall r | r in Split(w, e.src) ensures r in rs {
    }
  }

  lemma SingleWordsAlike(w: CharClass, es: seq<Entry>, a: seq<string>, b: seq<string>)
    requires AllWordBounded(w, es) && SourcesApart(w, es) && GluesSingleWords(w, es)
    requires a != [] && b != [] && a[0] == b[0] && forall r | r in a :: !(FNC_PREFIX <= r)
    ensures MarkAt(w, es, a).Glued? ==> MarkAt(w, es, b).Glued?
  {
    if MarkAt(w, es, a).Glued? {
      var e := GluedBy(w, es, a);
      SplitOfRun(w, e.src);
      assert [e.src] <= b;
      MarkIff(w, es, e, b);
    }
  }

  lemma SingleWordsAlikeAt(w: CharClass, es: seq<Entry>, files: Files, p: Path, i: nat, q: Path, j: nat)
    requires AllWordBounded(w, es) && SourcesApart(w, es) && GluesSingleWords(w, es)
    requires WordAt(w, files, p, i) && WordAt(w, files, q, j) && Unprefixed(w, files[p])
    requires RunAt(w, files, p, i) == RunAt(w, files, q, j)
    ensures MarkOf(w, es, files, p, i).Glued? ==> MarkOf(w, es, files, q, j).Glued?
  {
    var a, b := Split(w, files[p])[i..], Split(w, files[q])[j..];
    forall r | r in a ensures !(FNC_PREFIX <= r) {
      assert r in Split(w, files[p]);
    }
    SingleWordsAlike(w, es, a, b);
  }

  lemma SingleWordsConsistent(w: CharClass, es: seq<Entry>, files: Files)
    requires ShippedForm(w, es) && GluesSingleWords(w, es) && AllUnprefixed(w, files)
    ensures RenamedConsistently(w, es, files)
  {
    ShippedHasNoChains(w, es);
    forall p, i: nat, q, j: nat | WordAt(w, files, p, i) && WordAt(w, files, q, j)
      ensures AlikeAt(w, es, files, p, i, q, j)
    {
      if RunAt(w, files, p, i) == RunAt(w, files, q, j) {
        SingleWordsAlikeAt(w, es, files, p, i, q, j);
        SingleWordsAlikeAt(w, es, files, q, j, p, i);
      }
    }
    ConsistentIffUsedAlike(w, es, files);
  }

  lemma FirstWordAlone(w: CharClass, es: seq<Entry>, e: Entry)
    requires AllWordBounded(w, es) && SourcesApart(w, es) && e in es && |Split(w, e.src)| > 1
    ensures MarkAt(w, es, [Split(w, e.src)[0]]).Kept?
  {
    var f := Split(w, e.src);
    var x := [f[0]];
    assert x <= f && f[0..] == f;
    forall d | d in es ensures !(Split(w, d.src) <= x) {
      SplitWordBounded(w, d.src);
      assert SourceApart(Split(w, d.src), f);
    }
    FirstAtSound(w, es, x);
  }

  lemma OneRunIsWord(w: CharClass, f: string)
    requires WordBounded(w, f) && |Split(w, f)| == 1
    ensures IsWord(w, f)
  {
    var r := Split(w, f)[0];
    SplitWordBounded(w, f);
    JoinOne(r);
    assert Split(w, f) == [r] && IsRun(w, r);
  }

  /** The runs of a name, a separator and the name's own first word. */
  lemma SplitAndFirst(w: CharClass, f: string, sep: string)
    requires WordBounded(w, f) && IsRun(w, sep) && !w(sep[0])
    ensures var fr := Split(w, f); fr != [] && Split(w, f + sep + fr[0]) == fr + [sep] + [fr[0]]
  {
    var fr := Split(w, f);
    SplitWordBounded(w, f);
    SplitOfRun(w, sep);
    SplitOfRun(w, fr[0]);
    SplitConcat(w, f, sep);
    assert w(sep[|sep| - 1]) == w(sep[0]);
    SplitConcat(w, f + sep, fr[0]);
  }

  /** Its first word is glued where the name stands, and kept where it stands alone. */
  lemma MarksDiffer(w: CharClass, es: seq<Entry>, e: Entry, sep: string, rs: seq<string>)
    requires AllWordBounded(w, es) && SourcesApart(w, es) && e in es && e.dst == FNC_PREFIX + e.src
    requires |Split(w, e.src)| > 1 && rs == Split(w, e.src) + [sep] + [Split(w, e.src)[0]]
    ensures MarkAt(w, es, rs[0..]).Glued? && MarkAt(w, es, rs[|rs| - 1..]).Kept?
  {
    var f := Split(w, e.src);
    assert rs[..|f|] == f && rs[0..] == rs && rs[|rs| - 1..] == [f[0]];
    MarkIff(w, es, e, rs);
    FirstWordAlone(w, es, e);
  }

  /**
   A glued name of several words is renamed inconsistently by one file: after `kYuv##name##Constants`,
   the bare `kYuv` keeps its old spelling while the one in the name has changed.
   */
  lemma SeveralWordsSplitUp(w: CharClass, es: seq<Entry>, e: Entry, sep: string, p: Path)
    requires ShippedForm(w, es) && e in es && e.dst == FNC_PREFIX + e.src && !IsWord(w, e.src)
    requires Unprefixed(w, e.src) && IsRun(w, sep) && !w(sep[0])
    ensures var x := Split(w, e.src);
            && x != [] && Unprefixed(w, e.src + sep + x[0])
            && !RenamedConsistently(w, es, map[p := e.src + sep + x[0]])
  {
    var f := Split(w, e.src);
    SplitWordBounded(w, e.src);
    SplitAndFirst(w, e.src, sep);
    var t, n := e.src + sep + f[0], |f| + 1;
    var rs, files := Split(w, t), map[p := t];
    if |f| == 1 {
      OneRunIsWord(w, e.src);
    }
    ShippedHasNoChains(w, es);
    assert rs[0] == f[0] && rs[n] == f[0] && n == |rs| - 1;
    forall r | r in rs ensures !(FNC_PREFIX <= r) {
      assert r in f || r == sep;
    }
    MarksDiffer(w, es, e, sep, rs);
    assert IsRun(w, f[0]);
    assert WordAt(w, files, p, 0) && WordAt(w, files, p, n);
    SameWordAfterIff(w, es, files, p, 0, p, n);
    assert !KeptApartAt(w, es, files, p, 0, p, n);
  }

  lemma SomeFilesSplitUp(w: CharClass, es: seq<Entry>) returns (files: Files)
    requires ShippedForm(w, es) && !GluesSingleWords(w, es)
    ensures AllUnprefixed(w, files) && !RenamedConsistently(w, es, files)
  {
    var e :| e in es && e.dst == FNC_PREFIX + e.src && Unprefixed(w, e.src) && !IsWord(w, e.src);
    PrefixIsWord(w);
    SeveralWordsSplitUp(w, es, e, PASTE, []);
    files := map[[] := e.src + PASTE + Split(w, e.src)[0]];
  }

  /**
   A list of the shipped form renames all unprefixed files consistently exactly when it glues prefixes to
   single words only. The lines for `kYuv##name##Constants` and `kYvu##name##Constants` are the exceptions
   in the list as shipped.
   */
  lemma AlwaysConsistentIff(w: CharClass, es: seq<Entry>)
    requires ShippedForm(w, es)
    ensures (forall files | AllUnprefixed(w, files) :: RenamedConsistently(w, es, files)) <==> GluesSingleWords(w, es)
  {
    if GluesSingleWords(w, es) {
      forall files | AllUnprefixed(w, files) ensures RenamedConsistently(w, es, files) {
        SingleWordsConsistent(w, es, files);
      }
    } else {
      var files := SomeFilesSplitUp(w, es);
    }
  }
}
