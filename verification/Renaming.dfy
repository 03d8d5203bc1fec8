/**
 Applying the whole list to one text (yuv-sys/build.rs:44-64): the loop itself, what it does to the
 runs of a text, and, for lists of words, when it is one simultaneous substitution and when it can
 be repeated.
 */
module Renaming {
  import opened WordRuns
  import opened WholeWord
  import opened RenameList

  /** Sources are nonempty, as every parsed line guarantees. */
  predicate Usable(es: seq<Entry>) {
    forall e | e in es :: e.src != []
  }

  function RenameText(w: CharClass, es: seq<Entry>, t: string): string
    requires Usable(es)
  {
    if es == [] then t
    else RenameText(w, es[1..], Replace(w, t, es[0].src, es[0].dst))
  }

  /** No character of `s` is a regular-expression operator, so the pattern `\b{s}\b` is literal. */
  predicate IsLiteral(s: string) {
    forall i | 0 <= i < |s| :: s[i] !in "\\.+*?()|[]{}^$"
  }

  /** The patterns are literal and the replacements contain no `$` to expand. */
  predicate PlainList(lines: seq<string>) {
    forall e | e in ParseList(lines) :: IsLiteral(e.src) && '$' !in e.dst
  }

  /** The loop over the list, reassigning `content` whenever a replacement happened. */
  method RenameContent(w: CharClass, fncList: seq<string>, text: string) returns (content: string)
    requires PlainList(fncList)
    ensures Usable(ParseList(fncList)) && content == RenameText(w, ParseList(fncList), text)
  {
    content := text;
    ParsedList(fncList);
    var i := 0;
    while i < |fncList|
      invariant i <= |fncList|
      invariant Usable(ParseList(fncList[i..]))
      invariant RenameText(w, ParseList(fncList[i..]), content) == RenameText(w, ParseList(fncList), text)
    {
      var line := fncList[i];
      ParsedList(fncList[i + 1..]);
      assert fncList[i..][1..] == fncList[i + 1..];
      i := i + 1;
      var fnc := Trim(line);
      if fnc == [] {
        assert ParseList(fncList[i - 1..]) == ParseList(fncList[i..]);
        continue;
      }
      var split := Fields(fnc);
      FieldsOfTrimmed(line);
      var newName := if |split| > 1 then split[1] else FNC_PREFIX + split[0];
      var c, owned := ReplaceAll(w, content, split[0], newName);
      if owned {
        content := c;
      }
      ghost var e := Entry(split[0], newName);
      assert ParseList(fncList[i - 1..]) == [e] + ParseList(fncList[i..]);
      assert ([e] + ParseList(fncList[i..]))[1..] == ParseList(fncList[i..]);
    }
  }

  // ---------------------------------------------------------------- runs of the renamed text

  predicate AllWordBounded(w: CharClass, es: seq<Entry>) {
    forall e | e in es :: WordBounded(w, e.src) && WordBounded(w, e.dst)
  }

  predicate AllWords(w: CharClass, es: seq<Entry>) {
    forall e | e in es :: IsWord(w, e.src) && IsWord(w, e.dst)
  }

  /** The list applied, entry by entry, to a sequence of runs. */
  function RenameRuns(w: CharClass, es: seq<Entry>, rs: seq<string>): seq<string>
    requires AllWordBounded(w, es)
  {
    if es == [] then rs
    else
      SplitWordBounded(w, es[0].src);
      RenameRuns(w, es[1..], ReplaceRuns(rs, Split(w, es[0].src), Split(w, es[0].dst)))
  }

  /** Renaming a text is renaming its runs, for every list of word-bounded names. */
  lemma {:induction false} RenameIsRunRenaming(w: CharClass, es: seq<Entry>, t: string)
    requires AllWordBounded(w, es)
    ensures Split(w, RenameText(w, es, t)) == RenameRuns(w, es, Split(w, t))
  {
    if es != [] {
      var e := es[0];
      ReplaceIsRunReplacement(w, t, e.src, e.dst);
      RenameIsRunRenaming(w, es[1..], Replace(w, t, e.src, e.dst));
    }
  }

  /** What happens to one word: the entries are applied in turn, so a target may be renamed again. */
  function Apply(es: seq<Entry>, x: string): string {
    if es == [] then x else Apply(es[1..], MapRun(es[0].src, es[0].dst, x))
  }

  /** For lists of words the pass maps every run, in place, by the fold of the entries. */
  lemma {:induction false} RenameIsWordMap(w: CharClass, es: seq<Entry>, t: string)
    requires AllWords(w, es)
    ensures var rs, out := Split(w, t), Split(w, RenameText(w, es, t));
            |out| == |rs| && forall i | 0 <= i < |rs| :: out[i] == Apply(es, rs[i])
  {
    if es != [] {
      var e := es[0];
      var mid := Replace(w, t, e.src, e.dst);
      ReplaceWordIsMap(w, t, e.src, e.dst);
      RenameIsWordMap(w, es[1..], mid);
    }
  }

  /** Text between words is never changed. */
  lemma {:induction false} ApplyKeepsOthers(w: CharClass, es: seq<Entry>, x: string)
    requires AllWords(w, es)
    ensures (forall e | e in es :: e.src != x) ==> Apply(es, x) == x
    ensures IsRun(w, x) && !w(x[0]) ==> Apply(es, x) == x
    ensures IsWord(w, x) ==> IsWord(w, Apply(es, x))
  {
    if es != [] {
      ApplyKeepsOthers(w, es[1..], MapRun(es[0].src, es[0].dst, x));
    }
  }

  lemma RenameWord(w: CharClass, es: seq<Entry>, x: string)
    requires AllWords(w, es) && IsWord(w, x)
    ensures RenameText(w, es, x) == Apply(es, x)
  {
    RenameIsWordMap(w, es, x);
    SplitOfRun(w, x);
    var y := RenameText(w, es, x);
    SplitSound(w, y);
    assert Split(w, y) == [Apply(es, x)];
    JoinOne(Apply(es, x));
  }

  // ---------------------------------------------------------------- one simultaneous substitution

  /** The substitution in which the first line for a name wins. */
  function FirstMatch(es: seq<Entry>, x: string): string {
    if es == [] then x
    else if es[0].src == x then es[0].dst
    else FirstMatch(es[1..], x)
  }

  predicate IsFirst(es: seq<Entry>, i: nat)
    requires i < |es|
  {
    forall j | 0 <= j < i :: es[j].src != es[i].src
  }

  lemma {:induction false} ApplyAtFirst(es: seq<Entry>, i: nat)
    requires i < |es| && IsFirst(es, i)
    ensures Apply(es, es[i].src) == Apply(es[i + 1..], es[i].dst)
    ensures FirstMatch(es, es[i].src) == es[i].dst
  {
    if i > 0 {
      assert es[1..][i - 1] == es[i];
      assert forall j | 0 <= j < i - 1 :: es[1..][j] == es[j + 1];
      ApplyAtFirst(es[1..], i - 1);
      assert es[1..][i..] == es[i + 1..];
    }
  }

  lemma {:induction false} UnlistedUnchanged(es: seq<Entry>, x: string)
    requires forall e | e in es :: e.src != x
    ensures Apply(es, x) == x && FirstMatch(es, x) == x
  {
    if es != [] {
      UnlistedUnchanged(es[1..], x);
    }
  }

  lemma {:induction false} FirstLineFor(es: seq<Entry>, x: string) returns (i: nat)
    requires exists e :: e in es && e.src == x
    ensures i < |es| && es[i].src == x && IsFirst(es, i)
  {
    if es[0].src == x {
      i := 0;
    } else {
      i := FirstLineFor(es[1..], x);
      i := i + 1;
      assert forall j | 0 < j < i :: es[j] == es[1..][j - 1];
    }
  }

  /** Later lines leave the target of every effective line alone. */
  predicate TargetsSettle(es: seq<Entry>) {
    forall i: nat | i < |es| && IsFirst(es, i) :: Apply(es[i + 1..], es[i].dst) == es[i].dst
  }

  ghost predicate IsSimultaneous(es: seq<Entry>) {
    forall x :: Apply(es, x) == FirstMatch(es, x)
  }

  lemma SettledIsSimultaneous(es: seq<Entry>, x: string)
    requires TargetsSettle(es)
    ensures Apply(es, x) == FirstMatch(es, x)
  {
    if exists e :: e in es && e.src == x {
      var i := FirstLineFor(es, x);
      ApplyAtFirst(es, i);
    } else {
      UnlistedUnchanged(es, x);
    }
  }

  /**
   The sequential loop is one simultaneous, first-line-wins substitution exactly when later lines
   leave every effective target alone.
   */
  lemma SequentialIsSimultaneous(es: seq<Entry>)
    ensures IsSimultaneous(es) <==> TargetsSettle(es)
  {
    if TargetsSettle(es) {
      forall x ensures Apply(es, x) == FirstMatch(es, x) {
        SettledIsSimultaneous(es, x);
      }
    }
    if IsSimultaneous(es) {
      forall i: nat | i < |es| && IsFirst(es, i) ensures Apply(es[i + 1..], es[i].dst) == es[i].dst {
        ApplyAtFirst(es, i);
      }
    }
  }

  predicate NoTargetListed(es: seq<Entry>) {
    forall d, e | d in es && e in es :: d.dst != e.src
  }

  /** The shipped list never names a target as a source, so there is no chaining. */
  lemma UnchainedListSettles(es: seq<Entry>)
    requires NoTargetListed(es)
    ensures TargetsSettle(es)
  {
    forall i: nat | i < |es| && IsFirst(es, i) ensures Apply(es[i + 1..], es[i].dst) == es[i].dst {
      UnlistedUnchanged(es[i + 1..], es[i].dst);
    }
  }

  // ---------------------------------------------------------------- running the pass again

  ghost predicate Idempotent(w: CharClass, es: seq<Entry>)
    requires Usable(es)
  {
    forall t :: RenameText(w, es, RenameText(w, es, t)) == RenameText(w, es, t)
  }

  /** After one application the list has nothing more to say about its own sources. */
  predicate SourcesSettle(es: seq<Entry>) {
    forall e | e in es :: Apply(es, Apply(es, e.src)) == Apply(es, e.src)
  }

  /**
   A second pass over its own output is harmless on every text exactly when the list, applied to
   its own sources, is already settled after one application.
   */
  lemma RepeatHarmlessIff(w: CharClass, es: seq<Entry>)
    requires AllWords(w, es)
    ensures Idempotent(w, es) <==> SourcesSettle(es)
  {
    if SourcesSettle(es) {
      forall t ensures RenameText(w, es, RenameText(w, es, t)) == RenameText(w, es, t) {
        RepeatHarmless(w, es, t);
      }
    }
    if Idempotent(w, es) {
      forall e | e in es ensures Apply(es, Apply(es, e.src)) == Apply(es, e.src) {
        ApplyKeepsOthers(w, es, e.src);
        RenameWord(w, es, e.src);
        RenameWord(w, es, Apply(es, e.src));
        assert RenameText(w, es, RenameText(w, es, e.src)) == RenameText(w, es, e.src);
      }
    }
  }

  lemma RepeatHarmless(w: CharClass, es: seq<Entry>, t: string)
    requires AllWords(w, es) && SourcesSettle(es)
    ensures RenameText(w, es, RenameText(w, es, t)) == RenameText(w, es, t)
  {
    var once := RenameText(w, es, t);
    var twice := RenameText(w, es, once);
    RenameIsWordMap(w, es, t);
    RenameIsWordMap(w, es, once);
    var rs := Split(w, t);
    forall i | 0 <= i < |rs| ensures Split(w, twice)[i] == Split(w, once)[i] {
      ApplyKeepsOthers(w, es, rs[i]);
    }
    assert Split(w, twice) == Split(w, once);
    SplitSound(w, once);
    SplitSound(w, twice);
  }

  /** In particular, lists in which no target is a listed source can be applied any number of times. */
  lemma UnchainedListRepeats(w: CharClass, es: seq<Entry>, t: string)
    requires AllWords(w, es) && NoTargetListed(es)
    ensures RenameText(w, es, RenameText(w, es, t)) == RenameText(w, es, t)
  {
    forall e | e in es ensures Apply(es, Apply(es, e.src)) == Apply(es, e.src) {
      var i := FirstLineFor(es, e.src);
      ApplyAtFirst(es, i);
      UnlistedUnchanged(es[i + 1..], es[i].dst);
      UnlistedUnchanged(es, es[i].dst);
    }
    RepeatHarmless(w, es, t);
  }
}
