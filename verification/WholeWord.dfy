/**
 Whole-word replacement: the regular expression `\bF\b`, for a literal F, applied by
 `replace_all` (yuv-sys/build.rs:60-63), and what it does to the runs of a text.
 */
module WholeWord {
  import opened WordRuns

  /** `\b` at position `i`: exactly one of the two neighbouring positions holds a word character. */
  predicate Boundary(w: CharClass, t: string, i: nat)
    requires i <= |t|
  {
    (0 < i && w(t[i - 1])) != (i < |t| && w(t[i]))
  }

  /** `\bF\b` matches at position `i`. */
  predicate MatchAt(w: CharClass, t: string, f: string, i: nat) {
    && i + |f| <= |t|
    && t[i..i + |f|] == f
    && Boundary(w, t, i)
    && Boundary(w, t, i + |f|)
  }

  /**
   What a match is: the text of `f`, and before and after it no word character where `f` begins or ends with
   one, a word character where it does not.
   */
  lemma MatchAtMeans(w: CharClass, t: string, f: string, i: nat)
    requires f != [] && i + |f| <= |t|
    ensures MatchAt(w, t, f, i)
       <==> && t[i..i + |f|] == f
            && (if w(f[0]) then i == 0 || !w(t[i - 1]) else i > 0 && w(t[i - 1]))
            && (if w(f[|f| - 1]) then i + |f| == |t| || !w(t[i + |f|]) else i + |f| < |t| && w(t[i + |f|]))
  {
    if t[i..i + |f|] == f {
      assert t[i] == f[0] && t[i + |f| - 1] == f[|f| - 1];
    }
  }

  /** The same for the rest `u` of a text, knowing only whether a word character precedes it. */
  predicate MatchHere(w: CharClass, after: bool, u: string, f: string)
    requires f != []
  {
    && |f| <= |u| && u[..|f|] == f
    && after != w(u[0])
    && w(f[|f| - 1]) != (|f| < |u| && w(u[|f|]))
  }

  /** Leftmost, non-overlapping replacement in the rest of a text. */
  function ReplaceRest(w: CharClass, after: bool, u: string, f: string, n: string): string
    requires f != []
    decreases |u|
  {
    if u == [] then []
    else if MatchHere(w, after, u, f) then n + ReplaceRest(w, w(f[|f| - 1]), u[|f|..], f, n)
    else [u[0]] + ReplaceRest(w, w(u[0]), u[1..], f, n)
  }

  function Replace(w: CharClass, t: string, f: string, n: string): string
    requires f != []
  {
    ReplaceRest(w, false, t, f, n)
  }

  /** A word character stands right before position `i`. */
  predicate AfterWord(w: CharClass, t: string, i: nat)
    requires i <= |t|
  {
    0 < i && w(t[i - 1])
  }

  lemma MatchAtIsHere(w: CharClass, t: string, f: string, i: nat)
    requires f != [] && i <= |t|
    ensures MatchAt(w, t, f, i) <==> MatchHere(w, AfterWord(w, t, i), t[i..], f)
  {
    var u := t[i..];
    if |f| <= |u| {
      assert t[i..i + |f|] == u[..|f|];
      assert t[i] == u[0] && t[i + |f| - 1] == u[|f| - 1];
      assert u[..|f|] == f ==> u[|f| - 1] == f[|f| - 1];
      assert |f| < |u| ==> t[i + |f|] == u[|f|];
    }
  }

  /** The scan itself; `owned` tells `Cow::Owned` from `Cow::Borrowed`. */
  method ReplaceAll(w: CharClass, t: string, f: string, n: string) returns (out: string, owned: bool)
    requires f != []
    ensures out == Replace(w, t, f, n)
    ensures owned <==> exists i: nat :: MatchAt(w, t, f, i)
    ensures !owned ==> out == t
  {
    out, owned := [], false;
    var i := 0;
    ghost var hit: nat := 0;
    assert t[0..] == t;
    while i < |t|
      invariant i <= |t|
      invariant out + ReplaceRest(w, AfterWord(w, t, i), t[i..], f, n) == Replace(w, t, f, n)
      invariant owned ==> MatchAt(w, t, f, hit)
      invariant !owned ==> out == t[..i] && forall j: nat | j < i :: !MatchAt(w, t, f, j)
    {
      ghost var k := ScanStep(w, t, f, n, i, out);
      if MatchAt(w, t, f, i) {
        out, owned, i, hit := out + n, true, i + |f|, i;
      } else {
        out, i := out + [t[i]], i + 1;
      }
      assert i == k;
    }
    assert out + [] == out;
    assert t[..i] == t;
  }

  /** One step of the scan, with the output so far in front. */
  lemma ScanStep(w: CharClass, t: string, f: string, n: string, i: nat, out: string) returns (k: nat)
    requires f != [] && i < |t|
    ensures k == if MatchAt(w, t, f, i) then i + |f| else i + 1
    ensures k <= |t|
    ensures out + ReplaceRest(w, AfterWord(w, t, i), t[i..], f, n)
         == (out + if MatchAt(w, t, f, i) then n else [t[i]]) + ReplaceRest(w, AfterWord(w, t, k), t[k..], f, n)
  {
    MatchAtIsHere(w, t, f, i);
    var u := t[i..];
    if MatchAt(w, t, f, i) {
      k := i + |f|;
      assert u[|f|..] == t[k..] && t[k - 1] == f[|f| - 1];
      ConcatAssociative(out, n, ReplaceRest(w, AfterWord(w, t, k), t[k..], f, n));
    } else {
      k := i + 1;
      assert u[1..] == t[k..] && u[0] == t[i];
      ConcatAssociative(out, [t[i]], ReplaceRest(w, AfterWord(w, t, k), t[k..], f, n));
    }
  }

  /** Starts and ends with a word character, as every listed name does (`kYuv##name##Constants` too). */
  predicate WordBounded(w: CharClass, s: string) {
    s != [] && w(s[0]) && w(s[|s| - 1])
  }

  /** Leftmost, non-overlapping replacement on a sequence of runs. */
  function ReplaceRuns(rs: seq<string>, f: seq<string>, n: seq<string>): seq<string>
    requires f != []
  {
    if rs == [] then []
    else if f <= rs then n + ReplaceRuns(rs[|f|..], f, n)
    else [rs[0]] + ReplaceRuns(rs[1..], f, n)
  }

  /** The runs of a word-bounded string: they begin and end with a word. */
  ghost predicate WordBoundedRuns(w: CharClass, fr: seq<string>) {
    fr != [] && IsRuns(w, fr) && w(fr[0][0]) && w(fr[|fr| - 1][0])
  }

  lemma SplitWordBounded(w: CharClass, f: string)
    requires WordBounded(w, f)
    ensures WordBoundedRuns(w, Split(w, f)) && Join(Split(w, f)) == f
  {
    var fr := Split(w, f);
    SplitSound(w, f);
    LastRun(w, fr);
  }

  lemma JoinWordBounded(w: CharClass, fr: seq<string>)
    requires WordBoundedRuns(w, fr)
    ensures WordBounded(w, Join(fr)) && Join(fr)[0] == fr[0][0]
  {
    LastRun(w, fr);
  }

  /** A textual match shows up as a prefix of the runs. */
  lemma MatchGivesRuns(w: CharClass, after: bool, f: string, fr: seq<string>, rs: seq<string>)
    requires WordBoundedRuns(w, fr) && f == Join(fr) && f != [] && IsRuns(w, rs)
    requires MatchHere(w, after, Join(rs), f)
    ensures fr <= rs
  {
    var u := Join(rs);
    var v := u[|f|..];
    assert u == f + v;
    JoinWordBounded(w, fr);
    SplitUnique(w, rs);
    SplitUnique(w, fr);
    if v == [] {
      assert f + v == f;
    } else {
      assert v[0] == u[|f|];
      SplitConcat(w, f, v);
    }
  }

  /** A prefix of the runs is a textual match, unless a word character precedes it. */
  lemma RunsGiveMatch(w: CharClass, f: string, fr: seq<string>, rest: seq<string>)
    requires WordBoundedRuns(w, fr) && f == Join(fr) && f != [] && IsRuns(w, fr + rest)
    ensures MatchHere(w, false, f + Join(rest), f)
    ensures IsRuns(w, rest) && (rest != [] ==> !w(rest[0][0]))
  {
    JoinWordBounded(w, fr);
    IsRunsTail(w, fr + rest, |fr|);
    assert (fr + rest)[|fr|..] == rest;
    assert rest != [] ==> (fr + rest)[|fr| - 1] == fr[|fr| - 1] && (fr + rest)[|fr|] == rest[0];
    assert rest != [] ==> Join(rest)[0] == rest[0][0];
  }

  /** The rest of a run is copied: inside a run there is no boundary. */
  lemma {:induction false} CopyRun(w: CharClass, f: string, n: string, run: string, v: string)
    requires f != [] && (run == [] || IsRun(w, run))
    ensures run != [] ==> ReplaceRest(w, w(run[0]), run + v, f, n) == run + ReplaceRest(w, w(run[0]), v, f, n)
    decreases |run|
  {
    if run != [] {
      var tail := run[1..];
      assert (run + v)[1..] == tail + v && run == [run[0]] + tail;
      if tail == [] {
        assert tail + v == v;
      } else {
        CopyRun(w, f, n, tail, v);
        ConcatAssociative([run[0]], tail, ReplaceRest(w, w(run[0]), v, f, n));
      }
    }
  }

  /** Without a match at its start, a whole run is copied. */
  lemma SkipFirstRun(w: CharClass, after: bool, f: string, n: string, run: string, v: string)
    requires f != [] && IsRun(w, run) && !MatchHere(w, after, run + v, f)
    ensures ReplaceRest(w, after, run + v, f, n) == run + ReplaceRest(w, w(run[0]), v, f, n)
  {
    var tail := run[1..];
    assert (run + v)[1..] == tail + v && run == [run[0]] + tail;
    if tail == [] {
      assert tail + v == v;
    } else {
      CopyRun(w, f, n, tail, v);
      ConcatAssociative([run[0]], tail, ReplaceRest(w, w(run[0]), v, f, n));
    }
  }

  /** The text of replaced runs, one step at a time. */
  lemma JoinReplaced(rs: seq<string>, fr: seq<string>, nr: seq<string>)
    requires fr != [] && rs != []
    ensures Join(ReplaceRuns(rs, fr, nr))
         == if fr <= rs then Join(nr) + Join(ReplaceRuns(rs[|fr|..], fr, nr))
            else rs[0] + Join(ReplaceRuns(rs[1..], fr, nr))
  {
    if fr <= rs {
      JoinConcat(nr, ReplaceRuns(rs[|fr|..], fr, nr));
    } else {
      JoinCons(rs[0], ReplaceRuns(rs[1..], fr, nr));
    }
  }

  /** No word runs into `rs` from before. */
  predicate StartsFresh(w: CharClass, after: bool, rs: seq<string>) {
    after && rs != [] && rs[0] != [] ==> !w(rs[0][0])
  }

  lemma {:induction false} ReplaceRestIsRuns(w: CharClass, after: bool, f: string, n: string,
                                             rs: seq<string>, fr: seq<string>, nr: seq<string>)
    requires WordBoundedRuns(w, fr) && f == Join(fr) && f != [] && n == Join(nr)
    requires IsRuns(w, rs) && StartsFresh(w, after, rs)
    ensures ReplaceRest(w, after, Join(rs), f, n) == Join(ReplaceRuns(rs, fr, nr))
    decreases |rs|
  {
    if rs == [] {
    } else if fr <= rs {
      var rest := rs[|fr|..];
      assert rs == fr + rest;
      JoinConcat(fr, rest);
      RunsGiveMatch(w, f, fr, rest);
      JoinReplaced(rs, fr, nr);
      assert (f + Join(rest))[|f|..] == Join(rest);
      assert w(f[|f| - 1]) by { JoinWordBounded(w, fr); }
      assert !after by { assert rs[0] == fr[0]; }
      ReplaceRestIsRuns(w, true, f, n, rest, fr, nr);
    } else {
      var rest := rs[1..];
      JoinReplaced(rs, fr, nr);
      IsRunsTail(w, rs, 1);
      if MatchHere(w, after, Join(rs), f) {
        MatchGivesRuns(w, after, f, fr, rs);
        assert false;
      }
      SkipFirstRun(w, after, f, n, rs[0], Join(rest));
      assert rest != [] ==> rest[0] == rs[1];
      ReplaceRestIsRuns(w, w(rs[0][0]), f, n, rest, fr, nr);
    }
  }

  /** Replacing word-bounded run sequences keeps the alternation and the class of the first run. */
  lemma {:induction false} ReplaceRunsIsRuns(w: CharClass, rs: seq<string>, fr: seq<string>, nr: seq<string>)
    requires IsRuns(w, rs) && WordBoundedRuns(w, fr) && WordBoundedRuns(w, nr)
    ensures var out := ReplaceRuns(rs, fr, nr);
            IsRuns(w, out) && (out == [] <==> rs == []) && (rs != [] ==> w(out[0][0]) == w(rs[0][0]))
    decreases |rs|
  {
    if rs != [] {
      if fr <= rs {
        var rest := rs[|fr|..];
        ReplaceRunsIsRuns(w, rest, fr, nr);
        assert rs[|fr| - 1] == fr[|fr| - 1] && rs[0] == fr[0];
        assert rest != [] ==> rest[0] == rs[|fr|];
        IsRunsConcat(w, nr, ReplaceRuns(rest, fr, nr));
      } else {
        ReplaceRunsIsRuns(w, rs[1..], fr, nr);
        IsRunsConcat(w, [rs[0]], ReplaceRuns(rs[1..], fr, nr));
      }
    }
  }

  /**
   The textual scan is replacement on runs: splitting the output gives exactly the replaced runs
   of the input, so the text between listed names is never touched.
   */
  lemma ReplaceIsRunReplacement(w: CharClass, t: string, f: string, n: string)
    requires WordBounded(w, f) && WordBounded(w, n)
    ensures Split(w, f) != []
    ensures Split(w, Replace(w, t, f, n)) == ReplaceRuns(Split(w, t), Split(w, f), Split(w, n))
  {
    var rs, fr, nr := Split(w, t), Split(w, f), Split(w, n);
    SplitSound(w, t);
    SplitWordBounded(w, f);
    SplitWordBounded(w, n);
    ReplaceRestIsRuns(w, false, f, n, rs, fr, nr);
    ReplaceRunsIsRuns(w, rs, fr, nr);
    SplitUnique(w, ReplaceRuns(rs, fr, nr));
  }

  function MapRun(f: string, n: string, x: string): string {
    if x == f then n else x
  }

  /** For a single word the replacement is a map over the runs. */
  lemma {:induction false} ReplaceRunsIsMap(rs: seq<string>, f: string, n: string)
    ensures |ReplaceRuns(rs, [f], [n])| == |rs|
    ensures forall i | 0 <= i < |rs| :: ReplaceRuns(rs, [f], [n])[i] == MapRun(f, n, rs[i])
  {
    if rs != [] {
      ReplaceRunsIsMap(rs[1..], f, n);
      assert [f] <= rs <==> rs[0] == f;
      assert ReplaceRuns(rs, [f], [n]) == [MapRun(f, n, rs[0])] + ReplaceRuns(rs[1..], [f], [n]);
    }
  }

  /** On the text: runs equal to `f` become `n`, all others stay, in place. */
  lemma ReplaceWordIsMap(w: CharClass, t: string, f: string, n: string)
    requires IsWord(w, f) && IsWord(w, n)
    ensures var rs, out := Split(w, t), Split(w, Replace(w, t, f, n));
            |out| == |rs| && forall i | 0 <= i < |rs| :: out[i] == MapRun(f, n, rs[i])
  {
    SplitOfRun(w, f);
    SplitOfRun(w, n);
    ReplaceIsRunReplacement(w, t, f, n);
    ReplaceRunsIsMap(Split(w, t), f, n);
  }
}
