/**
 Running the pass again over its own output (yuv-sys/build.rs:43-67). For every list whose names begin and
 end with word characters and do not get into each other's way, the exact condition under which a second
 pass changes nothing, and what it says about lists of the shipped form.
 */
module RepeatPass {
  import opened WordRuns
  import opened WholeWord
  import opened RenameList
  import opened Renaming
  import opened PrefixUndo

  // ---------------------------------------------------------------- occurrences in runs

  predicate Occurs(g: seq<string>, rs: seq<string>) {
    g <= rs || (rs != [] && Occurs(g, rs[1..]))
  }

  /** One of the two begins with the other. */
  predicate Meets(x: seq<string>, y: seq<string>) {
    x <= y || y <= x
  }

  /** No occurrence of `g` that begins before an `n` reaches into it. */
  predicate StaysOut(g: seq<string>, n: seq<string>) {
    forall k | 0 < k < |g| :: !Meets(g[k..], n)
  }

  /** Writing `n` creates no occurrence of `g`, whatever surrounds it. */
  predicate Apart(g: seq<string>, n: seq<string>) {
    StaysOut(g, n) && forall k | 0 <= k < |n| :: !Meets(n[k..], g)
  }

  /** The same, except that `g` may lie inside `n`. */
  predicate NoOverlap(g: seq<string>, n: seq<string>) {
    StaysOut(g, n) && forall k | 0 <= k < |n| :: !(n[k..] < g)
  }

  lemma {:induction false} OccursLater(g: seq<string>, rs: seq<string>, k: nat)
    requires k <= |rs| && Occurs(g, rs[k..])
    ensures Occurs(g, rs)
  {
    if k > 0 {
      assert rs[1..][k - 1..] == rs[k..];
      OccursLater(g, rs[1..], k - 1);
    } else {
      assert rs[0..] == rs;
    }
  }

  lemma {:induction false} OccursAt(g: seq<string>, rs: seq<string>) returns (k: nat)
    requires Occurs(g, rs)
    ensures k <= |rs| && g <= rs[k..]
  {
    if g <= rs {
      k := 0;
    } else {
      k := OccursAt(g, rs[1..]);
      assert rs[1..][k..] == rs[k + 1..];
      k := k + 1;
    }
  }

  /** An occurrence after some runs in which it cannot begin. */
  lemma {:induction false} OccursBeyond(g: seq<string>, n: seq<string>, rest: seq<string>)
    requires Occurs(g, n + rest) && forall k | 0 <= k < |n| :: !Meets(n[k..], g)
    ensures Occurs(g, rest)
  {
    if n == [] {
      assert n + rest == rest;
    } else {
      assert n[0..] == n && (n + rest)[1..] == n[1..] + rest;
      PrefixMeets(g, n, rest);
      forall k | 0 <= k < |n[1..]| ensures !Meets(n[1..][k..], g) {
        assert n[1..][k..] == n[k + 1..];
      }
      OccursBeyond(g, n[1..], rest);
    }
  }

  lemma PrefixMeets(g: seq<string>, n: seq<string>, rest: seq<string>)
    ensures g <= n + rest ==> Meets(g, n)
  {
    if g <= n + rest {
      assert |g| <= |n| ==> g == (n + rest)[..|g|] == n[..|g|];
      assert |n| <= |g| ==> n == (n + rest)[..|n|] == g[..|n|];
    }
  }

  lemma {:induction false} ReplaceAbsent(rs: seq<string>, f: seq<string>, n: seq<string>)
    requires f != [] && !Occurs(f, rs)
    ensures ReplaceRuns(rs, f, n) == rs
  {
    if rs != [] {
      ReplaceAbsent(rs[1..], f, n);
    }
  }

  lemma SameHit(rs: seq<string>, f: seq<string>, rest: seq<string>)
    requires f != [] && rs == f + rest && ReplaceRuns(rest, f, f) == rest
    ensures ReplaceRuns(rs, f, f) == rs
  {
    assert f <= rs && rs[|f|..] == rest;
  }

  lemma SameMiss(rs: seq<string>, f: seq<string>)
    requires f != [] && rs != [] && !(f <= rs) && ReplaceRuns(rs[1..], f, f) == rs[1..]
    ensures ReplaceRuns(rs, f, f) == rs
  {
    assert [rs[0]] + rs[1..] == rs;
  }

  lemma {:induction false} ReplaceBySame(rs: seq<string>, f: seq<string>)
    requires f != []
    ensures ReplaceRuns(rs, f, f) == rs
    decreases |rs|
  {
    if rs == [] {
    } else if f <= rs {
      var rest := rs[|f|..];
      ReplaceBySame(rest, f);
      SameHit(rs, f, rest);
    } else {
      ReplaceBySame(rs[1..], f);
      SameMiss(rs, f);
    }
  }

  /** The rest of an occurrence that follows a copied run was there before. */
  lemma {:induction false} RestWasThere(g: seq<string>, k: nat, rs: seq<string>, f: seq<string>, n: seq<string>)
    requires f != [] && 0 < k <= |g| && StaysOut(g, n) && g[k..] <= ReplaceRuns(rs, f, n)
    ensures g[k..] <= rs
    decreases |rs|
  {
    if k < |g| {
      assert rs != [];
      if f <= rs {
        PrefixMeets(g[k..], n, ReplaceRuns(rs[|f|..], f, n));
        assert false;
      } else {
        var out := ReplaceRuns(rs[1..], f, n);
        assert g[k..] == [g[k]] + g[k + 1..];
        assert ([rs[0]] + out)[1..] == out;
        assert g[k] == rs[0];
        assert g[k + 1..] <= out;
        RestWasThere(g, k + 1, rs[1..], f, n);
        assert rs == [rs[0]] + rs[1..];
      }
    }
  }

  /** Replacing `f` by something apart from `g` leaves no `g` behind, if there was none or `g` is `f`. */
  lemma {:induction false} NoneCreated(g: seq<string>, rs: seq<string>, f: seq<string>, n: seq<string>)
    requires f != [] && g != [] && Apart(g, n) && (g == f || !Occurs(g, rs))
    ensures !Occurs(g, ReplaceRuns(rs, f, n))
    decreases |rs|
  {
    if rs != [] {
      if f <= rs {
        var rest := rs[|f|..];
        if !Occurs(g, rs) && Occurs(g, rest) {
          OccursLater(g, rs, |f|);
        }
        NoneCreated(g, rest, f, n);
        if Occurs(g, n + ReplaceRuns(rest, f, n)) {
          OccursBeyond(g, n, ReplaceRuns(rest, f, n));
        }
      } else {
        var out := ReplaceRuns(rs[1..], f, n);
        NoneCreated(g, rs[1..], f, n);
        assert ([rs[0]] + out)[1..] == out;
        if g <= [rs[0]] + out {
          assert g == [g[0]] + g[1..] && g[0] == rs[0] && g[1..] <= out;
          RestWasThere(g, 1, rs[1..], f, n);
          assert false;
        }
      }
    }
  }

  lemma {:induction false} OccursInFront(g: seq<string>, n: seq<string>, rest: seq<string>)
    requires Occurs(g, n)
    ensures Occurs(g, n + rest)
  {
    if g <= n {
      assert (n + rest)[..|n|] == n;
    } else {
      assert (n + rest)[1..] == n[1..] + rest;
      OccursInFront(g, n[1..], rest);
    }
  }

  /** If `n` properly contains `f`, every replacement lengthens the runs and leaves an `f` behind. */
  lemma {:induction false} ReplaceGrows(rs: seq<string>, f: seq<string>, n: seq<string>)
    requires f != [] && f != n && Occurs(f, n) && Occurs(f, rs)
    ensures |n| > |f| && |ReplaceRuns(rs, f, n)| >= |rs| + |n| - |f| && Occurs(f, ReplaceRuns(rs, f, n))
    decreases |rs|
  {
    var k := OccursAt(f, n);
    assert k == 0 ==> f <= n[0..] == n;
    if f <= rs {
      var rest := rs[|f|..];
      if Occurs(f, rest) {
        ReplaceGrows(rest, f, n);
      } else {
        ReplaceAbsent(rest, f, n);
      }
      OccursInFront(f, n, ReplaceRuns(rest, f, n));
    } else {
      ReplaceGrows(rs[1..], f, n);
      var out := ReplaceRuns(rs[1..], f, n);
      assert ([rs[0]] + out)[1..] == out;
    }
  }

  // ---------------------------------------------------------------- lists

  /**
   The names do not get into each other's way: equal sources have equal targets, and no source overlaps
   or occurs in another source or another source's target.
   */
  predicate Separated(w: CharClass, es: seq<Entry>) {
    forall d, e | d in es && e in es :: KeepApart(w, d, e)
  }

  predicate KeepApart(w: CharClass, d: Entry, e: Entry) {
    if d.src == e.src then d.dst == e.dst && NoOverlap(Split(w, e.src), Split(w, e.dst))
    else Apart(Split(w, d.src), Split(w, e.dst)) && !Occurs(Split(w, d.src), Split(w, e.src))
  }

  /** The line changes nothing, or its target does not contain its source as whole words. */
  predicate SettlesItself(w: CharClass, e: Entry) {
    e.src == e.dst || !Occurs(Split(w, e.src), Split(w, e.dst))
  }

  lemma SettledApart(w: CharClass, d: Entry, e: Entry)
    requires KeepApart(w, d, e) && d.src != d.dst && SettlesItself(w, d)
    ensures Apart(Split(w, d.src), Split(w, e.dst))
  {
    var g, n := Split(w, d.src), Split(w, e.dst);
    if d.src == e.src {
      forall k | 0 <= k < |n| ensures !Meets(n[k..], g) {
        if g <= n[k..] {
          OccursLater(g, n, k);
        }
        assert !(n[k..] < g);
      }
    }
  }

  /** Once a line of the list has been applied, its source does not come back. */
  lemma {:induction false} PassClears(w: CharClass, es: seq<Entry>, d: Entry, rs: seq<string>)
    requires AllWordBounded(w, es) && WordBounded(w, d.src)
    requires forall e | e in es :: Apart(Split(w, d.src), Split(w, e.dst))
    requires d in es || !Occurs(Split(w, d.src), rs)
    ensures !Occurs(Split(w, d.src), RenameRuns(w, es, rs))
  {
    if es != [] {
      var e := es[0];
      SplitWordBounded(w, d.src);
      SplitWordBounded(w, e.src);
      var mid := ReplaceRuns(rs, Split(w, e.src), Split(w, e.dst));
      if d == e || !Occurs(Split(w, d.src), rs) {
        NoneCreated(Split(w, d.src), rs, Split(w, e.src), Split(w, e.dst));
      }
      PassClears(w, es[1..], d, mid);
    }
  }

  lemma {:induction false} ClearedIsKept(w: CharClass, es: seq<Entry>, rs: seq<string>)
    requires AllWordBounded(w, es)
    requires forall e | e in es :: e.src == e.dst || !Occurs(Split(w, e.src), rs)
    ensures RenameRuns(w, es, rs) == rs
  {
    if es != [] {
      var e := es[0];
      SplitWordBounded(w, e.src);
      if e.src == e.dst {
        ReplaceBySame(rs, Split(w, e.src));
      } else {
        ReplaceAbsent(rs, Split(w, e.src), Split(w, e.dst));
      }
      ClearedIsKept(w, es[1..], rs);
    }
  }

  /** A second pass changes a text iff it changes the runs. */
  lemma RepeatOnRuns(w: CharClass, es: seq<Entry>, t: string)
    requires AllWordBounded(w, es)
    ensures var once := RenameRuns(w, es, Split(w, t));
            RenameText(w, es, RenameText(w, es, t)) == RenameText(w, es, t) <==> RenameRuns(w, es, once) == once
  {
    var once := RenameText(w, es, t);
    var twice := RenameText(w, es, once);
    RenameIsRunRenaming(w, es, t);
    RenameIsRunRenaming(w, es, once);
    SplitSound(w, once);
    SplitSound(w, twice);
  }

  /** If the sources of the lines that change something are gone, a second pass has nothing to do. */
  lemma ClearedRepeats(w: CharClass, es: seq<Entry>, t: string)
    requires AllWordBounded(w, es)
    requires forall d, e | d in es && e in es && d.src != d.dst :: Apart(Split(w, d.src), Split(w, e.dst))
    ensures RenameText(w, es, RenameText(w, es, t)) == RenameText(w, es, t)
  {
    var rs := Split(w, t);
    var once := RenameRuns(w, es, rs);
    forall d | d in es ensures d.src == d.dst || !Occurs(Split(w, d.src), once) {
      if d.src != d.dst {
        PassClears(w, es, d, rs);
      }
    }
    ClearedIsKept(w, es, once);
    RepeatOnRuns(w, es, t);
  }

  /** Lists in which no target can contain a source or complete one can be applied any number of times. */
  lemma UnchainedNamesRepeat(w: CharClass, es: seq<Entry>)
    requires AllWordBounded(w, es)
    requires forall d, e | d in es && e in es && d.src != d.dst :: Apart(Split(w, d.src), Split(w, e.dst))
    ensures Idempotent(w, es)
  {
    forall t ensures RenameText(w, es, RenameText(w, es, t)) == RenameText(w, es, t) {
      ClearedRepeats(w, es, t);
    }
  }

  /** The source of `e` occurs, and no other listed source does. */
  predicate OnlyOf(w: CharClass, all: seq<Entry>, e: Entry, rs: seq<string>) {
    Occurs(Split(w, e.src), rs) && forall d | d in all && d.src != e.src :: !Occurs(Split(w, d.src), rs)
  }

  /** By how many runs the target is longer. */
  function Gain(w: CharClass, e: Entry): int {
    |Split(w, e.dst)| - |Split(w, e.src)|
  }

  /** The gain of every line with this source, added up. */
  function Gains(es: seq<Entry>, src: string, gain: nat): nat {
    if es == [] then 0 else (if es[0].src == src then gain else 0) + Gains(es[1..], src, gain)
  }

  lemma {:induction false} GainsListed(es: seq<Entry>, e: Entry, gain: nat)
    requires e in es
    ensures Gains(es, e.src, gain) >= gain
  {
    if es[0] != e {
      GainsListed(es[1..], e, gain);
    }
  }

  lemma LineGrows(w: CharClass, all: seq<Entry>, e: Entry, rs: seq<string>)
    requires AllWordBounded(w, all) && Separated(w, all) && e in all
    requires !SettlesItself(w, e) && OnlyOf(w, all, e, rs)
    ensures Split(w, e.src) != []
    ensures Gain(w, e) > 0
    ensures var out := ReplaceRuns(rs, Split(w, e.src), Split(w, e.dst));
            |out| >= |rs| + Gain(w, e) && OnlyOf(w, all, e, out)
  {
    var f, n := Split(w, e.src), Split(w, e.dst);
    SplitWordBounded(w, e.src);
    SplitWordBounded(w, e.dst);
    ReplaceGrows(rs, f, n);
    forall d | d in all && d.src != e.src ensures !Occurs(Split(w, d.src), ReplaceRuns(rs, f, n)) {
      assert KeepApart(w, d, e);
      SplitWordBounded(w, d.src);
      NoneCreated(Split(w, d.src), rs, f, n);
    }
  }

  lemma {:induction false} PassGrows(w: CharClass, all: seq<Entry>, e: Entry, es: seq<Entry>, rs: seq<string>)
    requires AllWordBounded(w, all) && Separated(w, all) && e in all
    requires !SettlesItself(w, e) && OnlyOf(w, all, e, rs)
    requires forall d | d in es :: d in all
    ensures AllWordBounded(w, es) && Gain(w, e) > 0
    ensures var out := RenameRuns(w, es, rs);
            OnlyOf(w, all, e, out) && |out| >= |rs| + Gains(es, e.src, Gain(w, e))
  {
    LineGrows(w, all, e, rs);
    if es != [] {
      var d := es[0];
      SplitWordBounded(w, d.src);
      var mid := ReplaceRuns(rs, Split(w, d.src), Split(w, d.dst));
      if d.src == e.src {
        assert KeepApart(w, d, e);
        LineGrows(w, all, e, rs);
      } else {
        ReplaceAbsent(rs, Split(w, d.src), Split(w, d.dst));
      }
      PassGrows(w, all, e, es[1..], mid);
    }
  }

  lemma AloneIsOnlyOf(w: CharClass, es: seq<Entry>, e: Entry)
    requires Separated(w, es) && e in es
    ensures OnlyOf(w, es, e, Split(w, e.src))
  {
    var rs := Split(w, e.src);
    assert rs <= rs && Occurs(rs, rs);
    forall d | d in es && d.src != e.src ensures !Occurs(Split(w, d.src), rs) {
      assert KeepApart(w, d, e);
    }
  }

  function PassTimes(w: CharClass, es: seq<Entry>, n: nat, t: string): string
    requires Usable(es)
  {
    if n == 0 then t else RenameText(w, es, PassTimes(w, es, n - 1, t))
  }

  lemma {:induction false} StaysUnsettled(w: CharClass, es: seq<Entry>, e: Entry, n: nat)
    requires AllWordBounded(w, es) && Separated(w, es) && e in es && !SettlesItself(w, e)
    ensures OnlyOf(w, es, e, Split(w, PassTimes(w, es, n, e.src)))
  {
    if n == 0 {
      AloneIsOnlyOf(w, es, e);
    } else {
      StaysUnsettled(w, es, e, n - 1);
      PassGrows(w, es, e, es, Split(w, PassTimes(w, es, n - 1, e.src)));
      RenameIsRunRenaming(w, es, PassTimes(w, es, n - 1, e.src));
    }
  }

  /** A text that consists of such a source alone grows with every pass. */
  lemma UnsettledGrows(w: CharClass, es: seq<Entry>, e: Entry, n: nat)
    requires AllWordBounded(w, es) && Separated(w, es) && e in es && !SettlesItself(w, e)
    ensures |Split(w, PassTimes(w, es, n + 1, e.src))| > |Split(w, PassTimes(w, es, n, e.src))|
  {
    var t := PassTimes(w, es, n, e.src);
    StaysUnsettled(w, es, e, n);
    PassGrows(w, es, e, es, Split(w, t));
    GainsListed(es, e, Gain(w, e));
    RenameIsRunRenaming(w, es, t);
  }

  lemma UnsettledRenamesAgain(w: CharClass, es: seq<Entry>, e: Entry)
    requires AllWordBounded(w, es) && Separated(w, es) && e in es && !SettlesItself(w, e)
    ensures RenameText(w, es, RenameText(w, es, e.src)) != RenameText(w, es, e.src)
  {
    var zero: nat := 0;
    UnsettledGrows(w, es, e, zero + 1);
    assert PassTimes(w, es, zero, e.src) == e.src;
    assert PassTimes(w, es, zero + 1, e.src) == RenameText(w, es, e.src);
  }

  /**
   For every list of word-bounded names that keep apart, single words or not: a second pass changes no
   text exactly when no line's target contains the line's own source as whole words.
   */
  lemma RepeatIff(w: CharClass, es: seq<Entry>)
    requires AllWordBounded(w, es) && Separated(w, es)
    ensures Idempotent(w, es) <==> forall e | e in es :: SettlesItself(w, e)
  {
    if forall e | e in es :: SettlesItself(w, e) {
      forall d, e | d in es && e in es && d.src != d.dst ensures Apart(Split(w, d.src), Split(w, e.dst)) {
        SettledApart(w, d, e);
      }
      UnchainedNamesRepeat(w, es);
    } else {
      var e :| e in es && !SettlesItself(w, e);
      UnsettledRenamesAgain(w, es, e);
    }
  }

  // ---------------------------------------------------------------- lists of the shipped form

  /** `f`, prefixed or not, neither contains `g` nor overlaps it, unless the two are the same. */
  predicate SourceApart(g: seq<string>, f: seq<string>) {
    && f != [] && FNC_PREFIX + f[0] !in g
    && forall k | 0 <= k < |f| && (k > 0 || g != f) :: !Meets(f[k..], g)
  }

  /** Equal sources have equal targets, and the sources do not overlap or occur in one another. */
  predicate SourcesApart(w: CharClass, es: seq<Entry>) {
    forall d, e | d in es && e in es ::
      (d.src == e.src ==> d.dst == e.dst) && SourceApart(Split(w, d.src), Split(w, e.src))
  }

  lemma MeetHeads(x: seq<string>, y: seq<string>)
    requires Meets(x, y) && x != [] && y != []
    ensures x[0] == y[0]
  {
  }

  lemma TargetStaysOut(g: seq<string>, f: seq<string>, n: seq<string>)
    requires SourceApart(g, f) && PrefixedRuns(f, n) && FNC_PREFIX !in g
    ensures StaysOut(g, n)
  {
    forall k | 0 < k < |g| ensures !Meets(g[k..], n) {
      assert g[k] in g;
      if Meets(g[k..], n) {
        MeetHeads(g[k..], n);
      }
    }
  }

  /** Where a source can meet a target: only behind a pasted prefix, and only its own. */
  lemma TargetMeets(g: seq<string>, f: seq<string>, n: seq<string>, k: nat)
    requires SourceApart(g, f) && PrefixedRuns(f, n) && g != [] && FNC_PREFIX !in g && g[0] != PASTE
    requires k < |n|
    ensures Meets(n[k..], g) ==> n == [FNC_PREFIX, PASTE] + f && g == f && n[k..] == f
  {
    assert g[0] in g;
    if Meets(n[k..], g) {
      MeetHeads(n[k..], g);
    }
    if n == [FNC_PREFIX, PASTE] + f {
      assert k >= 2 ==> n[k..] == f[k - 2..];
    } else {
      assert k >= 1 ==> n[k..] == f[k..];
    }
  }

  lemma TargetApart(g: seq<string>, f: seq<string>, n: seq<string>)
    requires SourceApart(g, f) && PrefixedRuns(f, n) && g != [] && FNC_PREFIX !in g && g[0] != PASTE
    ensures if g == f then NoOverlap(g, n) else Apart(g, n) && !Occurs(g, f)
  {
    TargetStaysOut(g, f, n);
    forall k | 0 <= k < |n| ensures Meets(n[k..], g) ==> g == f && n[k..] == f {
      TargetMeets(g, f, n, k);
    }
    if g != f && Occurs(g, f) {
      var k := OccursAt(g, f);
      assert Meets(f[k..], g);
    }
  }

  lemma PrefixLineApart(w: CharClass, d: Entry, e: Entry)
    requires KnowsPrefix(w) && PrefixLine(w, d) && PrefixLine(w, e)
    requires (d.src == e.src ==> d.dst == e.dst) && SourceApart(Split(w, d.src), Split(w, e.src))
    ensures KeepApart(w, d, e)
  {
    PrefixLineRuns(w, d);
    PrefixLineRuns(w, e);
    TargetApart(Split(w, d.src), Split(w, e.src), Split(w, e.dst));
    SplitSound(w, d.src);
    SplitSound(w, e.src);
  }

  /** A shipped line settles exactly when it glues the prefix; a pasted target keeps its source. */
  lemma PrefixLineSettlesIff(w: CharClass, e: Entry)
    requires KnowsPrefix(w) && PrefixLine(w, e) && SourceApart(Split(w, e.src), Split(w, e.src))
    ensures WordBounded(w, e.dst) && (SettlesItself(w, e) <==> e.dst == FNC_PREFIX + e.src)
  {
    var f, n := Split(w, e.src), Split(w, e.dst);
    PrefixLineRuns(w, e);
    if e.dst == FNC_PREFIX + e.src {
      GluedLine(w, e.src);
      if Occurs(f, n) {
        var k := OccursAt(f, n);
        TargetMeets(f, f, n, k);
      }
    } else {
      PastedLine(w, e.src);
      assert n[2..] == f && Occurs(f, f);
      OccursLater(f, n, 2);
    }
  }

  lemma PrefixListSeparated(w: CharClass, es: seq<Entry>)
    requires KnowsPrefix(w) && PrefixList(w, es) && SourcesApart(w, es)
    ensures AllWordBounded(w, es) && Separated(w, es)
  {
    forall d | d in es ensures WordBounded(w, d.dst) {
      PrefixLineSettlesIff(w, d);
    }
    forall d, e | d in es && e in es ensures KeepApart(w, d, e) {
      PrefixLineApart(w, d, e);
    }
  }

  /**
   For every list of the shipped form whose sources keep apart: a second pass changes no text exactly
   when every line glues the prefix to its name. One paste line with a pasted prefix is enough to
   change a text again.
   */
  lemma PrefixListRepeatIff(w: CharClass, es: seq<Entry>)
    requires KnowsPrefix(w) && PrefixList(w, es) && SourcesApart(w, es)
    ensures Usable(es)
    ensures Idempotent(w, es) <==> forall e | e in es :: e.dst == FNC_PREFIX + e.src
  {
    forall e | e in es
      ensures WordBounded(w, e.dst) && (SettlesItself(w, e) <==> e.dst == FNC_PREFIX + e.src)
    {
      PrefixLineSettlesIff(w, e);
    }
    PrefixListSeparated(w, es);
    RepeatIff(w, es);
  }

  /** In such a list, a text that is a pasted line's own source is longer, in runs, after every further pass. */
  lemma PasteInListRenamesAgain(w: CharClass, es: seq<Entry>, e: Entry, n: nat)
    requires KnowsPrefix(w) && PrefixList(w, es) && SourcesApart(w, es)
    requires e in es && e.dst == FNC_PREFIX + PASTE + e.src
    ensures Usable(es) && |Split(w, PassTimes(w, es, n + 1, e.src))| > |Split(w, PassTimes(w, es, n, e.src))|
  {
    PrefixListSeparated(w, es);
    PrefixLineSettlesIff(w, e);
    UnsettledGrows(w, es, e, n);
  }

  lemma OverlapRunsOnce(w: CharClass, x: string, f: string)
    requires KnowsPrefix(w) && IsWord(w, x) && f == x + PASTE + x
    ensures WordBounded(w, f) && Split(w, f) == [x, PASTE, x]
  {
    SplitOfRun(w, x);
    SplitPaste(w, x, x);
  }

  lemma OverlapRuns(w: CharClass, x: string, e: Entry)
    requires KnowsPrefix(w) && IsWord(w, x) && x != FNC_PREFIX
    requires e.src == x + PASTE + x && e.dst == FNC_PREFIX + e.src
    ensures Split(w, e.src) == [x, PASTE, x] && Split(w, e.dst) == [FNC_PREFIX + x, PASTE, x]
    ensures Split(w, x + PASTE + e.src) == [x, PASTE] + [x, PASTE, x]
    ensures PrefixLine(w, e) && AllWordBounded(w, [e])
  {
    OverlapRunsOnce(w, x, e.src);
    SplitPaste(w, x, e.src);
    GluedLine(w, e.src);
  }

  lemma OneLine(w: CharClass, e: Entry, rs: seq<string>)
    requires AllWordBounded(w, [e])
    ensures Split(w, e.src) != [] && RenameRuns(w, [e], rs) == ReplaceRuns(rs, Split(w, e.src), Split(w, e.dst))
  {
    assert [e][1..] == [];
  }

  lemma OneLinePass(w: CharClass, e: Entry, t: string)
    requires AllWordBounded(w, [e])
    ensures Split(w, e.src) != []
    ensures Split(w, RenameText(w, [e], t)) == ReplaceRuns(Split(w, t), Split(w, e.src), Split(w, e.dst))
  {
    OneLine(w, e, Split(w, t));
    RenameIsRunRenaming(w, [e], t);
  }

  /** The second pass changes the text once more, the third does not. */
  ghost predicate TakesTwoPasses(w: CharClass, es: seq<Entry>, t: string)
    requires Usable(es)
  {
    PassTimes(w, es, 2, t) != PassTimes(w, es, 1, t) && PassTimes(w, es, 3, t) == PassTimes(w, es, 2, t)
  }

  lemma PassesOf(w: CharClass, es: seq<Entry>, t: string)
    requires Usable(es)
    ensures var once := RenameText(w, es, t);
            var twice := RenameText(w, es, once);
            TakesTwoPasses(w, es, t) <==> twice != once && RenameText(w, es, twice) == twice
  {
    var once := PassTimes(w, es, 1, t);
    assert once == RenameText(w, es, PassTimes(w, es, 0, t));
    assert PassTimes(w, es, 2, t) == RenameText(w, es, once);
  }

  lemma OneLineTwoPasses(w: CharClass, e: Entry, t: string)
    requires AllWordBounded(w, [e]) && Split(w, e.src) != []
    requires var once := ReplaceRuns(Split(w, t), Split(w, e.src), Split(w, e.dst));
             var twice := ReplaceRuns(once, Split(w, e.src), Split(w, e.dst));
             twice != once && ReplaceRuns(twice, Split(w, e.src), Split(w, e.dst)) == twice
    ensures Usable([e]) && TakesTwoPasses(w, [e], t) && !Idempotent(w, [e])
  {
    var once := RenameText(w, [e], t);
    var twice := RenameText(w, [e], once);
    OneLinePass(w, e, t);
    OneLinePass(w, e, once);
    OneLinePass(w, e, twice);
    SplitSound(w, twice);
    SplitSound(w, RenameText(w, [e], twice));
    PassesOf(w, [e], t);
  }

  lemma OverlapTwice(x: string, f: seq<string>, n: seq<string>, rs: seq<string>)
    requires f == [x, PASTE, x] && n == [FNC_PREFIX + x, PASTE, x] && rs == [x, PASTE] + f && x != PASTE
    ensures ReplaceRuns(rs, f, n) == n + [PASTE, x]
    ensures ReplaceRuns(n + [PASTE, x], f, n) == [FNC_PREFIX + x, PASTE] + n != n + [PASTE, x]
  {
    var tail := [PASTE, x];
    assert rs[|f|..] == tail;
    if Occurs(f, tail) {
      var k := OccursAt(f, tail);
    }
    ReplaceAbsent(tail, f, n);
    var once, later := n + tail, [PASTE] + f;
    assert once[1..] == later && later[1..] == f && f[|f|..] == [];
    assert ReplaceRuns(f, f, n) == n + [];
    assert ReplaceRuns(later, f, n) == [PASTE] + (n + []);
    assert ReplaceRuns(once, f, n) == [once[0]] + ([PASTE] + (n + []));
    assert once[2] == x && ([FNC_PREFIX + x, PASTE] + n)[2] == n[0];
  }

  lemma OverlapSettles(x: string, f: seq<string>, n: seq<string>)
    requires f == [x, PASTE, x] && n == [FNC_PREFIX + x, PASTE, x] && x != PASTE
    ensures ReplaceRuns([FNC_PREFIX + x, PASTE] + n, f, n) == [FNC_PREFIX + x, PASTE] + n
  {
    var twice := [FNC_PREFIX + x, PASTE] + n;
    assert |FNC_PREFIX + x| > |x|;
    forall k | 0 <= k <= |twice| ensures !(f <= twice[k..]) {
      if k < 3 {
        assert twice[k..][0] == twice[k] != x;
      }
    }
    if Occurs(f, twice) {
      var k := OccursAt(f, twice);
    }
    ReplaceAbsent(twice, f, n);
  }

  /**
   Sources must keep apart: `x##x` is glued a prefix, yet the two overlapping occurrences in `x##x##x` take
   two passes, after which the text is settled.
   */
  lemma OverlapRenamesAgain(w: CharClass, x: string, e: Entry)
    requires KnowsPrefix(w) && IsWord(w, x) && x != FNC_PREFIX
    requires e.src == x + PASTE + x && e.dst == FNC_PREFIX + e.src
    ensures PrefixLine(w, e) && Usable([e])
    ensures TakesTwoPasses(w, [e], x + PASTE + e.src) && !Idempotent(w, [e])
  {
    var t := x + PASTE + e.src;
    OverlapRuns(w, x, e);
    OverlapTwice(x, Split(w, e.src), Split(w, e.dst), Split(w, t));
    OverlapSettles(x, Split(w, e.src), Split(w, e.dst));
    OneLineTwoPasses(w, e, t);
  }
}
