/**
 Undoing the pass. The list as shipped has two kinds of lines: a name alone, which is prefixed
 with `rs_`, and a macro paste `A##B` whose explicit target is `rs_##A##B`. Deleting the prefixes
 again recovers every text that used no `rs_` name to begin with, whatever the list's order,
 duplicates or chains.
 */
module PrefixUndo {
  import opened WordRuns
  import opened WholeWord
  import opened RenameList
  import opened Renaming
  import opened AlphaRenaming

  const PASTE: string := "##"

  /** What the word class must know about the characters the prefix is made of. */
  predicate KnowsPrefix(w: CharClass) {
    w('r') && w('s') && w('_') && !w('#')
  }

  /** A shipped line: a word-bounded name that does not use the bare word `rs_`, prefixed in one of the two ways. */
  predicate PrefixLine(w: CharClass, e: Entry) {
    && WordBounded(w, e.src)
    && FNC_PREFIX !in Split(w, e.src)
    && (e.dst == FNC_PREFIX + e.src || e.dst == FNC_PREFIX + PASTE + e.src)
  }

  predicate PrefixList(w: CharClass, es: seq<Entry>) {
    forall e | e in es :: PrefixLine(w, e)
  }

  /** Removes every leading `rs_` as long as something remains. */
  function Strip(x: string): string {
    if FNC_PREFIX <= x && |x| > |FNC_PREFIX| then Strip(x[|FNC_PREFIX|..]) else x
  }

  /** Removes pasted prefixes (`rs_` `##`) and strips every other run. */
  function Undo(rs: seq<string>): seq<string> {
    if rs == [] then []
    else if |rs| >= 2 && rs[0] == FNC_PREFIX && rs[1] == PASTE then Undo(rs[2..])
    else [Strip(rs[0])] + Undo(rs[1..])
  }

  function UndoText(w: CharClass, t: string): string {
    Join(Undo(Split(w, t)))
  }

  /** The text uses no name that begins with the prefix. */
  predicate Unprefixed(w: CharClass, t: string) {
    forall r | r in Split(w, t) :: !(FNC_PREFIX <= r)
  }

  /** The runs of a prefixed name. */
  predicate PrefixedRuns(fr: seq<string>, nr: seq<string>)
    requires fr != []
  {
    nr == [FNC_PREFIX + fr[0]] + fr[1..] || nr == [FNC_PREFIX, PASTE] + fr
  }

  lemma PrefixIsWord(w: CharClass)
    requires KnowsPrefix(w)
    ensures IsWord(w, FNC_PREFIX) && IsRun(w, PASTE) && !w(PASTE[0])
  {
  }

  lemma GluedWord(w: CharClass, x: string, y: string)
    requires IsWord(w, x) && IsRun(w, y) && w(y[0])
    ensures IsWord(w, x + y)
  {
  }

  lemma GluedRuns(w: CharClass, x: string, fr: seq<string>)
    requires IsWord(w, x) && WordBoundedRuns(w, fr)
    ensures IsRuns(w, [x + fr[0]] + fr[1..])
    ensures Join([x + fr[0]] + fr[1..]) == x + Join(fr)
  {
    var y, tail := fr[0], fr[1..];
    GluedWord(w, x, y);
    IsRunsTail(w, fr, 1);
    assert IsRuns(w, [x + y]);
    assert tail != [] ==> tail[0] == fr[1];
    IsRunsConcat(w, [x + y], tail);
    JoinCons(x + y, tail);
    ConcatAssociative(x, y, Join(tail));
  }

  /** Gluing a word in front of a word-bounded name lengthens its first run. */
  lemma SplitGlued(w: CharClass, x: string, f: string)
    requires IsWord(w, x) && WordBounded(w, f)
    ensures var fr := Split(w, f); fr != [] && Split(w, x + f) == [x + fr[0]] + fr[1..]
  {
    var fr := Split(w, f);
    SplitWordBounded(w, f);
    GluedRuns(w, x, fr);
    SplitUnique(w, [x + fr[0]] + fr[1..]);
  }

  lemma SplitInFront(w: CharClass, a: string, t: string)
    requires IsRun(w, a) && t != [] && w(a[|a| - 1]) != w(t[0])
    ensures Split(w, a + t) == [a] + Split(w, t)
  {
    SplitOfRun(w, a);
    SplitConcat(w, a, t);
  }

  /** Pasting in front adds two runs. */
  lemma SplitPasted(w: CharClass, f: string)
    requires KnowsPrefix(w) && WordBounded(w, f)
    ensures Split(w, FNC_PREFIX + PASTE + f) == [FNC_PREFIX, PASTE] + Split(w, f)
  {
    PrefixIsWord(w);
    SplitTwoInFront(w, FNC_PREFIX, PASTE, f);
  }

  lemma SplitTwoInFront(w: CharClass, a: string, b: string, f: string)
    requires IsRun(w, a) && IsRun(w, b) && f != [] && w(a[0]) != w(b[0]) && w(b[0]) != w(f[0])
    ensures Split(w, a + b + f) == [a, b] + Split(w, f)
  {
    var bf, fr := b + f, Split(w, f);
    assert w(a[|a| - 1]) == w(a[0]) && w(b[|b| - 1]) == w(b[0]) && bf[0] == b[0];
    SplitInFront(w, b, f);
    SplitInFront(w, a, bf);
    ConcatAssociative(a, b, f);
    ConcatAssociative([a], [b], fr);
  }

  lemma GluedLine(w: CharClass, f: string)
    requires KnowsPrefix(w) && WordBounded(w, f)
    ensures WordBounded(w, FNC_PREFIX + f) && WordBoundedRuns(w, Split(w, f))
    ensures Split(w, FNC_PREFIX + f) == [FNC_PREFIX + Split(w, f)[0]] + Split(w, f)[1..]
  {
    PrefixIsWord(w);
    SplitWordBounded(w, f);
    SplitGlued(w, FNC_PREFIX, f);
    LastCharacter(FNC_PREFIX, f);
  }

  lemma PastedLine(w: CharClass, f: string)
    requires KnowsPrefix(w) && WordBounded(w, f)
    ensures WordBounded(w, FNC_PREFIX + PASTE + f) && WordBoundedRuns(w, Split(w, f))
    ensures Split(w, FNC_PREFIX + PASTE + f) == [FNC_PREFIX, PASTE] + Split(w, f)
  {
    SplitWordBounded(w, f);
    SplitPasted(w, f);
    LastCharacter(FNC_PREFIX + PASTE, f);
  }

  /** Both kinds of lines replace a name by a prefixed, word-bounded one. */
  lemma PrefixLineRuns(w: CharClass, e: Entry)
    requires KnowsPrefix(w) && PrefixLine(w, e)
    ensures WordBounded(w, e.dst) && WordBoundedRuns(w, Split(w, e.src))
    ensures PrefixedRuns(Split(w, e.src), Split(w, e.dst))
  {
    if e.dst == FNC_PREFIX + e.src {
      GluedLine(w, e.src);
    } else {
      PastedLine(w, e.src);
    }
  }

  lemma LastCharacter(a: string, f: string)
    requires a != [] && f != []
    ensures (a + f)[0] == a[0] && (a + f)[|a + f| - 1] == f[|f| - 1]
  {
  }

  lemma StripPrefixed(x: string)
    requires x != []
    ensures Strip(FNC_PREFIX + x) == Strip(x)
  {
    assert (FNC_PREFIX + x)[|FNC_PREFIX|..] == x;
  }

  /** A run that is not the bare prefix is undone on its own. */
  lemma UndoCons(x: string, rs: seq<string>)
    requires x != FNC_PREFIX
    ensures Undo([x] + rs) == [Strip(x)] + Undo(rs)
  {
    assert ([x] + rs)[1..] == rs;
  }

  /** A name without the bare prefix is undone run by run, whatever follows it. */
  lemma {:induction false} UndoAppend(fr: seq<string>, a: seq<string>, b: seq<string>)
    requires FNC_PREFIX !in fr && Undo(a) == Undo(b)
    ensures Undo(fr + a) == Undo(fr + b)
  {
    if fr == [] {
      assert fr + a == a && fr + b == b;
    } else {
      assert fr[0] in fr && [fr[0]] + fr[1..] == fr;
      UndoAppend(fr[1..], a, b);
      ConcatAssociative([fr[0]], fr[1..], a);
      ConcatAssociative([fr[0]], fr[1..], b);
      UndoCons(fr[0], fr[1..] + a);
      UndoCons(fr[0], fr[1..] + b);
    }
  }

  lemma UndoGlued(x: string, tail: seq<string>)
    requires x != [] && x != FNC_PREFIX
    ensures Undo([FNC_PREFIX + x] + tail) == Undo([x] + tail)
  {
    assert |FNC_PREFIX + x| > |FNC_PREFIX|;
    UndoCons(FNC_PREFIX + x, tail);
    UndoCons(x, tail);
    StripPrefixed(x);
  }

  lemma UndoPasted(rs: seq<string>)
    ensures Undo([FNC_PREFIX, PASTE] + rs) == Undo(rs)
  {
    assert ([FNC_PREFIX, PASTE] + rs)[2..] == rs;
  }

  /** Undoing a prefixed name gives what undoing the name gives. */
  lemma UndoPrefixed(fr: seq<string>, nr: seq<string>, rest: seq<string>)
    requires fr != [] && fr[0] != [] && fr[0] != FNC_PREFIX && PrefixedRuns(fr, nr)
    ensures Undo(nr + rest) == Undo(fr + rest)
  {
    if nr == [FNC_PREFIX + fr[0]] + fr[1..] {
      ConcatAssociative([FNC_PREFIX + fr[0]], fr[1..], rest);
      ConcatAssociative([fr[0]], fr[1..], rest);
      assert [fr[0]] + fr[1..] == fr;
      UndoGlued(fr[0], fr[1..] + rest);
    } else {
      ConcatAssociative([FNC_PREFIX, PASTE], fr, rest);
      UndoPasted(fr + rest);
    }
  }

  lemma ReplaceKeepsHead(rs: seq<string>, fr: seq<string>, nr: seq<string>)
    requires fr != [] && nr != [] && nr[0] != PASTE && fr[0] != PASTE && rs != []
    ensures ReplaceRuns(rs, fr, nr) != []
    ensures ReplaceRuns(rs, fr, nr)[0] == PASTE <==> rs[0] == PASTE
    ensures rs[0] == PASTE ==> ReplaceRuns(rs, fr, nr) == [PASTE] + ReplaceRuns(rs[1..], fr, nr)
  {
    if fr <= rs {
      assert rs[0] == fr[0];
    }
  }

  /** Replacing a name by its prefixed form is invisible to `Undo`. */
  lemma {:induction false} UndoReplaced(rs: seq<string>, fr: seq<string>, nr: seq<string>)
    requires fr != [] && FNC_PREFIX !in fr && fr[0] != [] && fr[0] != PASTE
    requires PrefixedRuns(fr, nr)
    ensures Undo(ReplaceRuns(rs, fr, nr)) == Undo(rs)
    decreases |rs|
  {
    if rs == [] {
    } else if fr <= rs {
      var rest := rs[|fr|..];
      var out := ReplaceRuns(rest, fr, nr);
      UndoReplaced(rest, fr, nr);
      UndoPrefixed(fr, nr, out);
      UndoAppend(fr, out, rest);
      assert rs == fr + rest;
    } else {
      UndoSkipped(rs, fr, nr);
    }
  }

  lemma {:induction false} UndoSkipped(rs: seq<string>, fr: seq<string>, nr: seq<string>)
    requires fr != [] && FNC_PREFIX !in fr && fr[0] != [] && fr[0] != PASTE
    requires PrefixedRuns(fr, nr)
    requires rs != [] && !(fr <= rs)
    ensures Undo(ReplaceRuns(rs, fr, nr)) == Undo(rs)
    decreases |rs|, 0
  {
    var tail := rs[1..];
    var out := ReplaceRuns(tail, fr, nr);
    assert ReplaceRuns(rs, fr, nr) == [rs[0]] + out;
    assert rs == [rs[0]] + tail;
    if tail != [] {
      assert nr[0] != PASTE;
      ReplaceKeepsHead(tail, fr, nr);
    }
    if rs[0] == FNC_PREFIX && tail != [] && tail[0] == PASTE {
      assert ([rs[0]] + out)[2..] == ReplaceRuns(tail[1..], fr, nr);
      assert rs[2..] == tail[1..];
      UndoReplaced(rs[2..], fr, nr);
    } else {
      assert ([rs[0]] + out)[1..] == out;
      UndoReplaced(tail, fr, nr);
    }
  }

  lemma {:induction false} UndoClean(rs: seq<string>)
    requires forall r | r in rs :: !(FNC_PREFIX <= r)
    ensures Undo(rs) == rs
  {
    if rs != [] {
      assert rs[0] in rs;
      assert forall r | r in rs[1..] :: r in rs;
      UndoClean(rs[1..]);
    }
  }

  lemma {:induction false} UndoRenamed(w: CharClass, es: seq<Entry>, t: string)
    requires KnowsPrefix(w) && PrefixList(w, es)
    ensures Usable(es) && Undo(Split(w, RenameText(w, es, t))) == Undo(Split(w, t))
  {
    if es != [] {
      var e := es[0];
      var fr := Split(w, e.src);
      PrefixLineRuns(w, e);
      ReplaceIsRunReplacement(w, t, e.src, e.dst);
      UndoReplaced(Split(w, t), fr, Split(w, e.dst));
      UndoRenamed(w, es[1..], Replace(w, t, e.src, e.dst));
    }
  }

  /** Round trip: nothing is lost, so the renamed tree determines the original one. */
  lemma UndoRecoversText(w: CharClass, es: seq<Entry>, t: string)
    requires KnowsPrefix(w) && PrefixList(w, es) && Unprefixed(w, t)
    ensures Usable(es) && UndoText(w, RenameText(w, es, t)) == t
  {
    UndoRenamed(w, es, t);
    UndoClean(Split(w, t));
    SplitSound(w, t);
  }

  /** Files that differed before the pass differ after it. */
  lemma DistinctTextsStayDistinct(w: CharClass, es: seq<Entry>, t1: string, t2: string)
    requires KnowsPrefix(w) && PrefixList(w, es) && Unprefixed(w, t1) && Unprefixed(w, t2)
    ensures Usable(es) && (RenameText(w, es, t1) == RenameText(w, es, t2) <==> t1 == t2)
  {
    UndoRecoversText(w, es, t1);
    UndoRecoversText(w, es, t2);
  }

  /**
   One-column lists of words never merge two names of files that do not yet use the prefix, even
   when a listed name is itself the prefix of another or the list repeats or chains lines.
   */
  lemma OneColumnKeepsNamesApart(w: CharClass, es: seq<Entry>, names: set<string>)
    requires KnowsPrefix(w)
    requires forall e | e in es :: IsWord(w, e.src) && e.src != FNC_PREFIX && e.dst == FNC_PREFIX + e.src
    requires forall x | x in names :: IsWord(w, x) && !(FNC_PREFIX <= x)
    ensures CollisionFree(es, names)
  {
    PrefixIsWord(w);
    forall e | e in es ensures PrefixLine(w, e) && IsWord(w, e.dst) {
      SplitOfRun(w, e.src);
    }
    forall x, y | x in names && y in names && Apply(es, x) == Apply(es, y) ensures x == y {
      SplitOfRun(w, x);
      SplitOfRun(w, y);
      RenameWord(w, es, x);
      RenameWord(w, es, y);
      DistinctTextsStayDistinct(w, es, x, y);
    }
    InjectiveIffCollisionFree(es, names);
  }

  lemma SplitPaste(w: CharClass, a: string, b: string)
    requires KnowsPrefix(w) && IsWord(w, a) && WordBounded(w, b)
    ensures WordBounded(w, a + PASTE + b) && Split(w, a + PASTE + b) == [a, PASTE] + Split(w, b)
  {
    PrefixIsWord(w);
    SplitTwoInFront(w, a, PASTE, b);
  }

  /** Every kind of line in the shipped list qualifies: single names, and pastes of two or three words. */
  lemma ShippedLinesQualify(w: CharClass, a: string, b: string, c: string)
    requires KnowsPrefix(w) && IsWord(w, a) && IsWord(w, b) && IsWord(w, c) && FNC_PREFIX !in [a, b, c]
    ensures PrefixLine(w, Entry(a, "rs_" + a))
    ensures var ab := a + "##" + b; PrefixLine(w, Entry(ab, "rs_##" + ab))
    ensures var abc := a + "##" + (b + "##" + c); PrefixLine(w, Entry(abc, "rs_" + abc))
  {
    assert FNC_PREFIX + PASTE == "rs_##";
    SplitOfRun(w, a);
    SplitOfRun(w, b);
    SplitOfRun(w, c);
    SplitPaste(w, a, b);
    SplitPaste(w, b, c);
    SplitPaste(w, a, b + PASTE + c);
  }

  /**
   A paste line cannot be applied twice: its own target still contains its source as a whole
   word, so a second pass prefixes again. This is why the tree is renamed once, when it is cloned.
   */
  lemma PasteLineRenamesAgain(w: CharClass, e: Entry)
    requires KnowsPrefix(w) && PrefixLine(w, e) && e.dst == FNC_PREFIX + PASTE + e.src
    ensures RenameText(w, [e], e.src) == e.dst
    ensures RenameText(w, [e], e.dst) == FNC_PREFIX + PASTE + e.dst
    ensures !Idempotent(w, [e])
  {
    var f, n := e.src, e.dst;
    var fr, nr := Split(w, f), Split(w, n);
    PrefixLineRuns(w, e);
    SplitPasted(w, f);
    SplitPasted(w, n);
    PasteReplacedTwice(fr, nr);
    RenameOnce(w, e, f, n);
    RenameOnce(w, e, n, FNC_PREFIX + PASTE + n);
    assert RenameText(w, [e], RenameText(w, [e], f)) != RenameText(w, [e], f);
  }

  lemma PasteReplacedTwice(fr: seq<string>, nr: seq<string>)
    requires fr != [] && fr[0] != FNC_PREFIX && fr[0] != PASTE && nr == [FNC_PREFIX, PASTE] + fr
    ensures ReplaceRuns(fr, fr, nr) == nr
    ensures ReplaceRuns(nr, fr, nr) == [FNC_PREFIX, PASTE] + nr
  {
    var a, b := FNC_PREFIX, PASTE;
    assert fr[|fr|..] == [];
    assert ReplaceRuns(fr, fr, nr) == nr + [];
    var inner := [b] + fr;
    assert inner[1..] == fr && nr == [a] + inner && nr[1..] == inner;
    assert ReplaceRuns(inner, fr, nr) == [b] + nr;
    assert ReplaceRuns(nr, fr, nr) == [a] + ([b] + nr);
  }

  lemma RenameOnce(w: CharClass, e: Entry, t: string, out: string)
    requires WordBounded(w, e.src) && WordBounded(w, e.dst) && Split(w, e.src) != []
    requires Split(w, out) == ReplaceRuns(Split(w, t), Split(w, e.src), Split(w, e.dst))
    ensures RenameText(w, [e], t) == out
  {
    var got := Replace(w, t, e.src, e.dst);
    ReplaceIsRunReplacement(w, t, e.src, e.dst);
    SplitSound(w, got);
    SplitSound(w, out);
    assert [e][1..] == [];
  }
}
