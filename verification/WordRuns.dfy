/**
 Texts as sequences of maximal runs of one character class.

 A "word character" is whatever the regular-expression engine says it is (its `\b` is
 Unicode-aware), so every definition takes the class as a parameter.
 */
module WordRuns {

  type CharClass = char -> bool

  /** A nonempty string all of whose characters are on the same side of `w`. */
  predicate IsRun(w: CharClass, s: string) {
    s != [] && forall i | 0 <= i < |s| :: w(s[i]) == w(s[0])
  }

  /** A nonempty string of word characters only. */
  predicate IsWord(w: CharClass, s: string) {
    s != [] && forall i | 0 <= i < |s| :: w(s[i])
  }

  /** Runs whose classes alternate: what a text looks like once it is cut at every class change. */
  ghost predicate IsRuns(w: CharClass, rs: seq<string>) {
    && (forall k | 0 <= k < |rs| :: IsRun(w, rs[k]))
    && (forall i, j | 0 <= i < j < |rs| && j == i + 1 :: w(rs[i][0]) != w(rs[j][0]))
  }

  function Join(rs: seq<string>): string {
    if rs == [] then [] else rs[0] + Join(rs[1..])
  }

  /** Length of the first maximal run. */
  function FirstRun(w: CharClass, t: string): (n: nat)
    requires t != []
    ensures 1 <= n <= |t| && IsRun(w, t[..n])
    ensures n < |t| ==> w(t[n]) != w(t[0])
  {
    if |t| == 1 || w(t[1]) != w(t[0]) then 1
    else
      var n := FirstRun(w, t[1..]);
      assert t[..1 + n] == [t[0]] + t[1..][..n];
      1 + n
  }

  /** Cuts a text into its maximal runs. */
  function Split(w: CharClass, t: string): seq<string> {
    if t == [] then []
    else
      var n := FirstRun(w, t);
      [t[..n]] + Split(w, t[n..])
  }

  /** Cutting loses nothing and yields alternating runs. */
  lemma {:induction false} SplitSound(w: CharClass, t: string)
    ensures Join(Split(w, t)) == t && IsRuns(w, Split(w, t))
    ensures Split(w, t) == [] <==> t == []
    ensures t != [] ==> Split(w, t)[0][0] == t[0]
  {
    if t != [] {
      var n := FirstRun(w, t);
      var rest := Split(w, t[n..]);
      SplitSound(w, t[n..]);
      assert Split(w, t) == [t[..n]] + rest;
      IsRunsConcat(w, [t[..n]], rest);
      JoinCons(t[..n], rest);
    }
  }

  lemma ConcatAssociative<T>(a: seq<T>, b: seq<T>, c: seq<T>)
    ensures (a + b) + c == a + (b + c)
  {
  }

  lemma {:induction false} JoinConcat(a: seq<string>, b: seq<string>)
    ensures Join(a + b) == Join(a) + Join(b)
  {
    if a == [] {
      assert a + b == b;
    } else {
      assert (a + b)[1..] == a[1..] + b;
      JoinConcat(a[1..], b);
    }
  }

  lemma {:induction false} FirstRunUnique(w: CharClass, t: string, n: nat)
    requires 1 <= n <= |t| && forall i | 0 <= i < n :: w(t[i]) == w(t[0])
    requires n < |t| ==> w(t[n]) != w(t[0])
    ensures FirstRun(w, t) == n
  {
    if n > 1 {
      FirstRunUnique(w, t[1..], n - 1);
    }
  }

  /** `Split` is the only way to cut a text into alternating runs. */
  lemma {:induction false} SplitUnique(w: CharClass, rs: seq<string>)
    requires IsRuns(w, rs)
    ensures Split(w, Join(rs)) == rs
  {
    if rs != [] {
      var t, n, rest := Join(rs), |rs[0]|, Join(rs[1..]);
      assert t == rs[0] + rest;
      assert t[..n] == rs[0] && t[n..] == rest;
      assert |rs| > 1 ==> rest[0] == rs[1][0];
      assert forall i | 0 <= i < n :: t[i] == rs[0][i];
      FirstRunUnique(w, t, n);
      assert Split(w, t) == [t[..n]] + Split(w, t[n..]);
      SplitUnique(w, rs[1..]);
    }
  }

  lemma IsRunsConcat(w: CharClass, a: seq<string>, b: seq<string>)
    requires IsRuns(w, a) && IsRuns(w, b)
    requires a != [] && b != [] ==> w(a[|a| - 1][0]) != w(b[0][0])
    ensures IsRuns(w, a + b)
  {
  }

  lemma IsRunsTail(w: CharClass, rs: seq<string>, k: nat)
    requires IsRuns(w, rs) && k <= |rs|
    ensures IsRuns(w, rs[k..])
  {
  }

  /** The last run of a text ends in the text's last character. */
  lemma {:induction false} LastOfJoin(rs: seq<string>)
    requires rs != [] && forall k | 0 <= k < |rs| :: rs[k] != []
    ensures Join(rs) != []
    ensures var l := rs[|rs| - 1]; Join(rs)[|Join(rs)| - 1] == l[|l| - 1]
  {
    if |rs| > 1 {
      LastOfJoin(rs[1..]);
      assert rs[1..][|rs| - 2] == rs[|rs| - 1];
    } else {
      assert Join(rs) == rs[0] + [];
    }
  }

  lemma LastRun(w: CharClass, rs: seq<string>)
    requires rs != [] && IsRuns(w, rs)
    ensures var t, l := Join(rs), rs[|rs| - 1]; t != [] && l != [] && w(t[|t| - 1]) == w(l[0])
  {
    LastOfJoin(rs);
    var l := rs[|rs| - 1];
    assert IsRun(w, l);
    assert w(l[|l| - 1]) == w(l[0]);
  }

  /** Cutting a text where its class changes does not disturb either half. */
  lemma SplitConcat(w: CharClass, a: string, b: string)
    requires a != [] && b != [] && w(a[|a| - 1]) != w(b[0])
    ensures Split(w, a + b) == Split(w, a) + Split(w, b)
  {
    var ra, rb := Split(w, a), Split(w, b);
    SplitSound(w, a);
    SplitSound(w, b);
    LastRun(w, ra);
    IsRunsConcat(w, ra, rb);
    JoinConcat(ra, rb);
    SplitUnique(w, ra + rb);
  }

  lemma JoinCons(s: string, rs: seq<string>)
    ensures Join([s] + rs) == s + Join(rs)
  {
    assert ([s] + rs)[1..] == rs;
  }

  lemma JoinOne(s: string)
    ensures Join([s]) == s
  {
    assert Join([s]) == s + Join([]);
  }

  /** A run is its own split; in particular a word is one run. */
  lemma SplitOfRun(w: CharClass, s: string)
    requires IsRun(w, s)
    ensures Split(w, s) == [s]
  {
    JoinOne(s);
    SplitUnique(w, [s]);
  }
}
