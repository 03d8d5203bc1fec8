/**
 The whole list as one simultaneous substitution on the runs of a text (yuv-sys/build.rs:44-64), for names
 of any number of words, and what it does to each word when the list is of the shipped form.
 */
module RunSubstitution {
  import opened Wrappers
  import opened WordRuns
  import opened WholeWord
  import opened RenameList
  import opened Renaming
  import opened PrefixUndo
  import opened RepeatPass

  /** The first line whose source begins here. */
  function FirstAt(w: CharClass, es: seq<Entry>, rs: seq<string>): Option<Entry> {
    if es == [] then None
    else if Split(w, es[0].src) <= rs then Some(es[0])
    else FirstAt(w, es[1..], rs)
  }

  /** One scan of the text in which the first line that begins at a position replaces its source there. */
  function Substitute(w: CharClass, es: seq<Entry>, rs: seq<string>): seq<string>
    requires AllWordBounded(w, es)
    decreases |rs|
  {
    if rs == [] then []
    else
      match FirstAt(w, es, rs)
      case None => [rs[0]] + Substitute(w, es, rs[1..])
      case Some(e) =>
        FirstAtSound(w, es, rs);
        Split(w, e.dst) + Substitute(w, es, rs[|Split(w, e.src)|..])
  }

  lemma {:induction false} FirstAtSound(w: CharClass, es: seq<Entry>, rs: seq<string>)
    requires AllWordBounded(w, es)
    ensures match FirstAt(w, es, rs)
            case None => forall d | d in es :: !(Split(w, d.src) <= rs)
            case Some(e) => e in es && Split(w, e.src) != [] && Split(w, e.src) <= rs
  {
    if es != [] {
      SplitWordBounded(w, es[0].src);
      FirstAtSound(w, es[1..], rs);
    }
  }

  lemma {:induction false} SameFirst(w: CharClass, es: seq<Entry>, a: seq<string>, b: seq<string>)
    requires forall d | d in es :: Split(w, d.src) <= a <==> Split(w, d.src) <= b
    ensures FirstAt(w, es, a) == FirstAt(w, es, b)
  {
    if es != [] {
      SameFirst(w, es[1..], a, b);
    }
  }

  // ---------------------------------------------------------------- in turn or all at once

  /** The later line `d` neither finds its source in what `e` wrote nor loses it to `e` half way. */
  predicate Later(w: CharClass, e: Entry, d: Entry) {
    var g := Split(w, d.src);
    Apart(g, Split(w, e.dst)) && StaysOut(g, Split(w, e.src))
  }

  predicate NoChains(w: CharClass, es: seq<Entry>) {
    es != [] ==> (forall d | d in es[1..] :: Later(w, es[0], d)) && NoChains(w, es[1..])
  }

  lemma NoneBegins(w: CharClass, es: seq<Entry>, n: seq<string>, rest: seq<string>)
    requires AllWordBounded(w, es) && forall d | d in es :: !Meets(n, Split(w, d.src))
    ensures FirstAt(w, es, n + rest) == None
  {
    FirstAtSound(w, es, n + rest);
    forall d | d in es ensures !(Split(w, d.src) <= n + rest) {
      PrefixMeets(Split(w, d.src), n, rest);
    }
  }

  lemma PrefixesMeet(a: seq<string>, b: seq<string>, rs: seq<string>)
    requires a <= rs && b <= rs
    ensures Meets(a, b)
  {
    assert a == rs[..|a|] && b == rs[..|b|];
  }

  predicate NoneInside(w: CharClass, es: seq<Entry>, n: seq<string>) {
    n != [] ==> (forall d | d in es :: !Meets(n, Split(w, d.src))) && NoneInside(w, es, n[1..])
  }

  lemma {:induction false} ApartIsNoneInside(w: CharClass, es: seq<Entry>, n: seq<string>, i: nat)
    requires i <= |n| && forall d | d in es :: Apart(Split(w, d.src), n)
    ensures NoneInside(w, es, n[i..])
    decreases |n| - i
  {
    if i < |n| {
      assert n[i..][1..] == n[i + 1..];
      ApartIsNoneInside(w, es, n, i + 1);
    }
  }

  lemma SubstituteOne(w: CharClass, es: seq<Entry>, x: string, rest: seq<string>)
    requires AllWordBounded(w, es) && FirstAt(w, es, [x] + rest) == None
    ensures Substitute(w, es, [x] + rest) == [x] + Substitute(w, es, rest)
  {
    assert ([x] + rest)[1..] == rest;
  }

  /** Runs in which no source begins are copied. */
  lemma {:induction false} SubstituteSkips(w: CharClass, es: seq<Entry>, n: seq<string>, rest: seq<string>)
    requires AllWordBounded(w, es) && NoneInside(w, es, n)
    ensures Substitute(w, es, n + rest) == n + Substitute(w, es, rest)
  {
    if n == [] {
      assert n + rest == rest;
    } else {
      var x, tail := n[0], n[1..];
      assert n == [x] + tail;
      NoneBegins(w, es, n, rest);
      ConcatAssociative([x], tail, rest);
      SubstituteOne(w, es, x, tail + rest);
      SubstituteSkips(w, es, tail, rest);
      ConcatAssociative([x], tail, Substitute(w, es, rest));
    }
  }

  /** A source that stands in the text, and into which `f` does not reach, is still there afterwards. */
  lemma {:induction false} SourceKept(g: seq<string>, k: nat, rs: seq<string>, f: seq<string>, n: seq<string>)
    requires f != [] && k <= |g| && g[k..] <= rs && (k > 0 || !(f <= rs))
    requires StaysOut(g, f)
    ensures ReplaceRuns(rs, f, n) == g[k..] + ReplaceRuns(rs[|g| - k..], f, n)
    decreases |g| - k
  {
    if k == |g| {
      assert rs[0..] == rs;
    } else {
      var tail := rs[1..];
      assert rs[0] == g[k] && g[k..] == [g[k]] + g[k + 1..];
      assert rs[..|g| - k] == g[k..];
      assert tail[..|g| - k - 1] == g[k + 1..];
      if f <= rs {
        PrefixesMeet(g[k..], f, rs);
      }
      SourceKept(g, k + 1, tail, f, n);
      assert tail[|g| - k - 1..] == rs[|g| - k..];
      ConcatAssociative([g[k]], g[k + 1..], ReplaceRuns(rs[|g| - k..], f, n));
    }
  }

  lemma SourceStays(g: seq<string>, rs: seq<string>, f: seq<string>, n: seq<string>)
    requires f != [] && g <= rs && !(f <= rs) && StaysOut(g, f)
    ensures g <= ReplaceRuns(rs, f, n) && ReplaceRuns(rs, f, n) == g + ReplaceRuns(rs[|g|..], f, n)
  {
    assert g[0..] == g;
    SourceKept(g, 0, rs, f, n);
  }

  /** A source that stands in the replaced text stood there before. */
  lemma SourceWasThere(g: seq<string>, rs: seq<string>, f: seq<string>, n: seq<string>)
    requires f != [] && g != [] && StaysOut(g, n) && rs != [] && !(f <= rs) && g <= ReplaceRuns(rs, f, n)
    ensures g <= rs
  {
    var out := ReplaceRuns(rs[1..], f, n);
    assert ([rs[0]] + out)[1..] == out;
    assert g == [g[0]] + g[1..] && g[0] == rs[0] && g[1..] <= out;
    RestWasThere(g, 1, rs[1..], f, n);
    assert rs == [rs[0]] + rs[1..];
  }

  /** Where the first line does not begin, the later lines begin after it where they began before. */
  lemma LaterBeginsIff(w: CharClass, e: Entry, d: Entry, rs: seq<string>)
    requires WordBounded(w, e.src) && WordBounded(w, d.src) && Later(w, e, d)
    requires !(Split(w, e.src) <= rs) && rs != []
    ensures Split(w, e.src) != []
    ensures Split(w, d.src) <= ReplaceRuns(rs, Split(w, e.src), Split(w, e.dst)) <==> Split(w, d.src) <= rs
    ensures Split(w, d.src) <= rs ==>
              ReplaceRuns(rs, Split(w, e.src), Split(w, e.dst))
              == Split(w, d.src) + ReplaceRuns(rs[|Split(w, d.src)|..], Split(w, e.src), Split(w, e.dst))
  {
    var g, f, n := Split(w, d.src), Split(w, e.src), Split(w, e.dst);
    SplitWordBounded(w, e.src);
    SplitWordBounded(w, d.src);
    if g <= rs {
      SourceStays(g, rs, f, n);
    } else if g <= ReplaceRuns(rs, f, n) {
      SourceWasThere(g, rs, f, n);
    }
  }

  /** Applying the first line and then the rest at once is applying all at once. */
  lemma {:induction false} FirstLineJoins(w: CharClass, es: seq<Entry>, rs: seq<string>)
    requires AllWordBounded(w, es) && es != [] && forall d | d in es[1..] :: Later(w, es[0], d)
    ensures Split(w, es[0].src) != []
    ensures Substitute(w, es[1..], ReplaceRuns(rs, Split(w, es[0].src), Split(w, es[0].dst))) == Substitute(w, es, rs)
    decreases |rs|
  {
    var e, later := es[0], es[1..];
    var f, n := Split(w, e.src), Split(w, e.dst);
    SplitWordBounded(w, e.src);
    if rs == [] {
    } else if f <= rs {
      FirstLineJoins(w, es, rs[|f|..]);
      ApartIsNoneInside(w, later, n, 0);
      assert n[0..] == n;
      SubstituteSkips(w, later, n, ReplaceRuns(rs[|f|..], f, n));
    } else {
      var out := ReplaceRuns(rs, f, n);
      forall d | d in later ensures Split(w, d.src) <= out <==> Split(w, d.src) <= rs {
        LaterBeginsIff(w, e, d, rs);
      }
      SameFirst(w, later, out, rs);
      FirstAtSound(w, later, rs);
      match FirstAt(w, later, rs) {
        case None =>
          FirstLineJoins(w, es, rs[1..]);
          assert out[1..] == ReplaceRuns(rs[1..], f, n);
        case Some(d) =>
          LaterBeginsIff(w, e, d, rs);
          FirstLineJoins(w, es, rs[|Split(w, d.src)|..]);
          assert out[|Split(w, d.src)|..] == ReplaceRuns(rs[|Split(w, d.src)|..], f, n);
      }
    }
  }

  lemma {:induction false} EmptyListSubstitutes(w: CharClass, rs: seq<string>)
    ensures Substitute(w, [], rs) == rs
  {
    if rs != [] {
      EmptyListSubstitutes(w, rs[1..]);
    }
  }

  /** Without chains the lines, applied in turn, are one simultaneous, first-line-wins substitution. */
  lemma {:induction false} InTurnIsAtOnce(w: CharClass, es: seq<Entry>, rs: seq<string>)
    requires AllWordBounded(w, es) && NoChains(w, es)
    ensures RenameRuns(w, es, rs) == Substitute(w, es, rs)
  {
    if es == [] {
      EmptyListSubstitutes(w, rs);
    } else {
      FirstLineJoins(w, es, rs);
      InTurnIsAtOnce(w, es[1..], ReplaceRuns(rs, Split(w, es[0].src), Split(w, es[0].dst)));
    }
  }

  // ---------------------------------------------------------------- the shipped list, word by word

  /** A paste line whose prefix is pasted on is not listed a second time. */
  predicate PastedOnce(es: seq<Entry>) {
    es != [] ==>
      (forall d | d in es[1..] && d.src == es[0].src :: d.dst == FNC_PREFIX + d.src) && PastedOnce(es[1..])
  }

  /** What the shipped list is: lines of one of the two shapes, apart from one another, pastes listed once. */
  predicate ShippedForm(w: CharClass, es: seq<Entry>) {
    KnowsPrefix(w) && PrefixList(w, es) && SourcesApart(w, es) && PastedOnce(es)
  }

  lemma GluedApart(g: seq<string>, f: seq<string>, n: seq<string>)
    requires SourceApart(g, f) && g != [] && FNC_PREFIX !in g && g[0] != PASTE
    requires n == [FNC_PREFIX + f[0]] + f[1..]
    ensures Apart(g, n)
  {
    TargetStaysOut(g, f, n);
    forall k | 0 <= k < |n| ensures !Meets(n[k..], g) {
      TargetMeets(g, f, n, k);
    }
  }

  lemma ShippedLineLater(w: CharClass, e: Entry, d: Entry)
    requires KnowsPrefix(w) && PrefixLine(w, e) && PrefixLine(w, d)
    requires SourceApart(Split(w, d.src), Split(w, e.src)) && SourceApart(Split(w, e.src), Split(w, d.src))
    requires d.src == e.src ==> e.dst == FNC_PREFIX + e.src
    ensures Later(w, e, d)
  {
    var g, f, n := Split(w, d.src), Split(w, e.src), Split(w, e.dst);
    PrefixLineRuns(w, e);
    PrefixLineRuns(w, d);
    if d.src == e.src {
      GluedLine(w, e.src);
      GluedApart(g, f, n);
    } else {
      SplitSound(w, d.src);
      SplitSound(w, e.src);
      TargetApart(g, f, n);
    }
  }

  lemma {:induction false} ShippedHasNoChains(w: CharClass, es: seq<Entry>)
    requires ShippedForm(w, es)
    ensures AllWordBounded(w, es) && NoChains(w, es)
  {
    if es != [] {
      PrefixLineRuns(w, es[0]);
      forall d | d in es[1..] ensures Later(w, es[0], d) {
        ShippedLineLater(w, es[0], d);
      }
      ShippedHasNoChains(w, es[1..]);
    }
  }

  /** At most one listed name begins at a position. */
  lemma FirstIsOnly(w: CharClass, es: seq<Entry>, e: Entry, rs: seq<string>)
    requires AllWordBounded(w, es) && SourcesApart(w, es) && e in es && Split(w, e.src) <= rs
    ensures FirstAt(w, es, rs) == Some(e)
  {
    FirstAtSound(w, es, rs);
    var d := FirstAt(w, es, rs).value;
    PrefixesMeet(Split(w, e.src), Split(w, d.src), rs);
    assert Split(w, e.src)[0..] == Split(w, e.src);
    assert SourceApart(Split(w, d.src), Split(w, e.src));
    SplitSound(w, e.src);
    SplitSound(w, d.src);
  }

  lemma {:induction false} PastedTwice(w: CharClass, es: seq<Entry>) returns (e: Entry)
    requires PrefixList(w, es) && SourcesApart(w, es) && !PastedOnce(es)
    ensures e in es && e.dst == FNC_PREFIX + PASTE + e.src && Gains(es, e.src, 2) >= 4
  {
    if exists d :: d in es[1..] && d.src == es[0].src && d.dst != FNC_PREFIX + d.src {
      e :| e in es[1..] && e.src == es[0].src && e.dst != FNC_PREFIX + e.src;
      assert PrefixLine(w, e);
      GainsListed(es[1..], e, 2);
    } else {
      e := PastedTwice(w, es[1..]);
    }
  }

  /** A pasted line that is listed twice pastes twice, where the scan pastes once. */
  lemma PastedTwiceDiffers(w: CharClass, es: seq<Entry>) returns (t: string)
    requires KnowsPrefix(w) && PrefixList(w, es) && SourcesApart(w, es) && !PastedOnce(es)
    ensures AllWordBounded(w, es) && Split(w, RenameText(w, es, t)) != Substitute(w, es, Split(w, t))
  {
    var e := PastedTwice(w, es);
    t := e.src;
    var f := Split(w, t);
    PrefixListSeparated(w, es);
    PrefixLineSettlesIff(w, e);
    PastedLine(w, t);
    AloneIsOnlyOf(w, es, e);
    PassGrows(w, es, e, es, f);
    RenameIsRunRenaming(w, es, t);
    FirstIsOnly(w, es, e, f);
    assert f[|f|..] == [];
  }

  /**
   For lists of the shipped form whose sources keep apart, the loop is the scan on every text exactly when
   no line with a pasted prefix is repeated.
   */
  lemma InTurnIsAtOnceIff(w: CharClass, es: seq<Entry>)
    requires KnowsPrefix(w) && PrefixList(w, es) && SourcesApart(w, es)
    ensures AllWordBounded(w, es)
    ensures (forall t :: Split(w, RenameText(w, es, t)) == Substitute(w, es, Split(w, t))) <==> PastedOnce(es)
  {
    PrefixListSeparated(w, es);
    if PastedOnce(es) {
      ShippedHasNoChains(w, es);
      forall t ensures Split(w, RenameText(w, es, t)) == Substitute(w, es, Split(w, t)) {
        RenameIsRunRenaming(w, es, t);
        InTurnIsAtOnce(w, es, Split(w, t));
      }
    } else {
      var t := PastedTwiceDiffers(w, es);
    }
  }

  datatype Mark = Kept | Glued | Pasted

  /** What becomes of the first run: a listed name that begins there decides. */
  function MarkAt(w: CharClass, es: seq<Entry>, rs: seq<string>): Mark {
    match FirstAt(w, es, rs)
    case None => Kept
    case Some(e) => if e.dst == FNC_PREFIX + e.src then Glued else Pasted
  }

  function Piece(m: Mark, x: string): seq<string> {
    match m
    case Kept => [x]
    case Glued => [FNC_PREFIX + x]
    case Pasted => [FNC_PREFIX, PASTE, x]
  }

  /** Every run in its place, prefixed as its mark says. */
  function Marked(w: CharClass, es: seq<Entry>, rs: seq<string>): seq<string> {
    if rs == [] then [] else Piece(MarkAt(w, es, rs), rs[0]) + Marked(w, es, rs[1..])
  }

  /** Inside a listed name, behind its first run, nothing begins. */
  lemma {:induction false} MarkedInside(w: CharClass, es: seq<Entry>, f: seq<string>, k: nat, rs: seq<string>)
    requires AllWordBounded(w, es) && 0 < k <= |f| && f[k..] <= rs
    requires forall d | d in es :: SourceApart(Split(w, d.src), f)
    ensures Marked(w, es, rs) == f[k..] + Marked(w, es, rs[|f| - k..])
    decreases |f| - k
  {
    if k == |f| {
      assert rs[0..] == rs;
    } else {
      var tail := rs[1..];
      assert rs[0] == f[k] && f[k..] == [f[k]] + f[k + 1..];
      assert rs[..|f| - k] == f[k..];
      assert tail[..|f| - k - 1] == f[k + 1..];
      FirstAtSound(w, es, rs);
      if FirstAt(w, es, rs).Some? {
        PrefixesMeet(f[k..], Split(w, FirstAt(w, es, rs).value.src), rs);
      }
      MarkedInside(w, es, f, k + 1, tail);
      assert tail[|f| - k - 1..] == rs[|f| - k..];
      ConcatAssociative([f[k]], f[k + 1..], Marked(w, es, rs[|f| - k..]));
    }
  }

  lemma TwoInFront(a: string, b: string, f: seq<string>)
    requires f != []
    ensures [a, b] + f == [a, b, f[0]] + f[1..]
  {
  }

  lemma PieceOfLine(w: CharClass, e: Entry)
    requires KnowsPrefix(w) && PrefixLine(w, e)
    ensures var f := Split(w, e.src);
            f != [] && Split(w, e.dst) == Piece(if e.dst == FNC_PREFIX + e.src then Glued else Pasted, f[0]) + f[1..]
  {
    var f := Split(w, e.src);
    if e.dst == FNC_PREFIX + e.src {
      GluedLine(w, e.src);
    } else {
      PastedLine(w, e.src);
      TwoInFront(FNC_PREFIX, PASTE, f);
    }
  }

  /** A listed name that begins here: its first run is prefixed, the rest of it is copied. */
  lemma MarkedName(w: CharClass, es: seq<Entry>, f: seq<string>, rs: seq<string>)
    requires AllWordBounded(w, es) && f != [] && f <= rs
    requires forall d | d in es :: SourceApart(Split(w, d.src), f)
    ensures Marked(w, es, rs) == (Piece(MarkAt(w, es, rs), f[0]) + f[1..]) + Marked(w, es, rs[|f|..])
  {
    var tail, piece := rs[1..], Piece(MarkAt(w, es, rs), f[0]);
    assert rs[..|f|] == f;
    assert tail[..|f| - 1] == f[1..];
    assert tail[|f| - 1..] == rs[|f|..];
    MarkedInside(w, es, f, 1, tail);
    ConcatAssociative(piece, f[1..], Marked(w, es, rs[|f|..]));
  }

  lemma {:induction false} SubstituteIsMarked(w: CharClass, es: seq<Entry>, rs: seq<string>)
    requires KnowsPrefix(w) && PrefixList(w, es) && AllWordBounded(w, es) && SourcesApart(w, es)
    ensures Substitute(w, es, rs) == Marked(w, es, rs)
    decreases |rs|
  {
    if rs != [] {
      FirstAtSound(w, es, rs);
      match FirstAt(w, es, rs) {
        case None =>
          SubstituteIsMarked(w, es, rs[1..]);
        case Some(e) =>
          PieceOfLine(w, e);
          MarkedName(w, es, Split(w, e.src), rs);
          SubstituteIsMarked(w, es, rs[|Split(w, e.src)|..]);
      }
    }
  }

  /**
   For every list of the shipped form whose sources keep apart: the pass leaves every run in its place and
   prefixes exactly the runs at which a listed name begins, so a paste such as `kYuv##name##Constants`
   prefixes `kYuv` there and nowhere else.
   */
  lemma ShippedPassMarks(w: CharClass, es: seq<Entry>, t: string)
    requires ShippedForm(w, es)
    ensures Usable(es) && Split(w, RenameText(w, es, t)) == Marked(w, es, Split(w, t))
  {
    ShippedHasNoChains(w, es);
    RenameIsRunRenaming(w, es, t);
    InTurnIsAtOnce(w, es, Split(w, t));
    SubstituteIsMarked(w, es, Split(w, t));
  }

  /** A run is changed exactly where a listed name begins, and the kind of that name's line says how. */
  lemma MarkIff(w: CharClass, es: seq<Entry>, e: Entry, rs: seq<string>)
    requires AllWordBounded(w, es) && SourcesApart(w, es) && e in es
    ensures MarkAt(w, es, rs).Kept? <==> forall d | d in es :: !(Split(w, d.src) <= rs)
    ensures Split(w, e.src) <= rs ==> MarkAt(w, es, rs) == if e.dst == FNC_PREFIX + e.src then Glued else Pasted
  {
    FirstAtSound(w, es, rs);
    if Split(w, e.src) <= rs {
      FirstIsOnly(w, es, e, rs);
    }
  }

  /** The text between words is never changed. */
  lemma BetweenWordsKept(w: CharClass, es: seq<Entry>, rs: seq<string>)
    requires AllWordBounded(w, es) && IsRuns(w, rs) && rs != [] && !w(rs[0][0])
    ensures MarkAt(w, es, rs).Kept?
  {
    FirstAtSound(w, es, rs);
    if FirstAt(w, es, rs).Some? {
      SplitWordBounded(w, FirstAt(w, es, rs).value.src);
    }
  }
}
