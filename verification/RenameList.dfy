/**
 The symbol list: one rename per line, an optional second column naming the target
 (yuv-sys/build.rs:45-58), and the binding names derived from the raw lines (241-244).
 */
module RenameList {
  import opened Wrappers
  import opened WordRuns

  const FNC_PREFIX: string := "rs_"

  datatype Entry = Entry(src: string, dst: string)

  /** The Unicode White_Space property, which `trim` and `split_whitespace` use. */
  predicate IsSpace(c: char) {
    || '\U{0009}' <= c <= '\U{000D}' || c == ' ' || c == '\U{0085}' || c == '\U{00A0}' || c == '\U{1680}'
    || '\U{2000}' <= c <= '\U{200A}' || c == '\U{2028}' || c == '\U{2029}' || c == '\U{202F}'
    || c == '\U{205F}' || c == '\U{3000}'
  }

  predicate Visible(c: char) {
    !IsSpace(c)
  }

  function TrimStart(s: string): string {
    if s != [] && IsSpace(s[0]) then TrimStart(s[1..]) else s
  }

  function TrimEnd(s: string): string {
    if s != [] && IsSpace(s[|s| - 1]) then TrimEnd(s[..|s| - 1]) else s
  }

  function Trim(s: string): string {
    TrimEnd(TrimStart(s))
  }

  function KeepWords(w: CharClass, rs: seq<string>): seq<string> {
    if rs == [] then []
    else (if IsWord(w, rs[0]) then [rs[0]] else []) + KeepWords(w, rs[1..])
  }

  /** `split_whitespace`: the maximal runs of visible characters. */
  function Fields(s: string): seq<string> {
    KeepWords(Visible, Split(Visible, s))
  }

  function ParseLine(line: string): Option<Entry> {
    var fnc := Trim(line);
    if fnc == [] then None
    else
      var split := Fields(fnc);
      FieldsOfTrimmed(line);
      Some(Entry(split[0], if |split| > 1 then split[1] else FNC_PREFIX + split[0]))
  }

  function ParseList(lines: seq<string>): seq<Entry> {
    if lines == [] then []
    else (match ParseLine(lines[0]) case None => [] case Some(e) => [e]) + ParseList(lines[1..])
  }

  /** What bindgen is asked to bind for a line: the raw line, not the parsed one. */
  function AllowlistName(line: string): string {
    FNC_PREFIX + line
  }

  lemma {:induction false} KeepWordsAreWords(w: CharClass, rs: seq<string>)
    ensures forall x | x in KeepWords(w, rs) :: IsWord(w, x)
  {
    if rs != [] {
      KeepWordsAreWords(w, rs[1..]);
    }
  }

  lemma {:induction false} KeepWordsFirst(w: CharClass, rs: seq<string>, k: nat)
    requires k < |rs| && IsWord(w, rs[k])
    ensures KeepWords(w, rs) != []
  {
    if k > 0 {
      KeepWordsFirst(w, rs[1..], k - 1);
    }
  }

  /** Every text with a visible first character has a first field, and fields are visible throughout. */
  lemma FieldsVisible(s: string)
    ensures forall x | x in Fields(s) :: IsWord(Visible, x)
    ensures s != [] && Visible(s[0]) ==> Fields(s) != []
  {
    var rs := Split(Visible, s);
    KeepWordsAreWords(Visible, rs);
    SplitSound(Visible, s);
    if s != [] && Visible(s[0]) {
      assert IsWord(Visible, rs[0]);
      KeepWordsFirst(Visible, rs, 0);
    }
  }

  lemma {:induction false} TrimStartSound(s: string)
    ensures |TrimStart(s)| <= |s| && TrimStart(s) == s[|s| - |TrimStart(s)|..]
    ensures TrimStart(s) != [] ==> Visible(TrimStart(s)[0])
    ensures TrimStart(s) == [] <==> forall i | 0 <= i < |s| :: IsSpace(s[i])
  {
    if s != [] && IsSpace(s[0]) {
      TrimStartSound(s[1..]);
      assert forall i | 0 < i < |s| :: s[i] == s[1..][i - 1];
    }
  }

  lemma {:induction false} TrimEndSound(s: string)
    ensures TrimEnd(s) <= s
    ensures s != [] && Visible(s[0]) ==> TrimEnd(s) != []
  {
    if s != [] && IsSpace(s[|s| - 1]) {
      TrimEndSound(s[..|s| - 1]);
    }
  }

  /** `split[0]` never indexes an empty vector: a line that is not blank has a first column. */
  lemma FieldsOfTrimmed(line: string)
    ensures Trim(line) == [] <==> forall i | 0 <= i < |line| :: IsSpace(line[i])
    ensures Trim(line) != [] ==> Fields(Trim(line)) != []
    ensures forall x | x in Fields(Trim(line)) :: IsWord(Visible, x)
  {
    TrimStartSound(line);
    TrimEndSound(TrimStart(line));
    FieldsVisible(Trim(line));
  }

  /** A parsed line names a nonempty source and a nonempty target, neither containing white space. */
  lemma ParsedColumns(line: string)
    ensures ParseLine(line).Some? <==> exists i :: 0 <= i < |line| && Visible(line[i])
    ensures ParseLine(line).Some? ==>
              IsWord(Visible, ParseLine(line).value.src) && IsWord(Visible, ParseLine(line).value.dst)
  {
    FieldsOfTrimmed(line);
  }

  lemma {:induction false} ParsedList(lines: seq<string>)
    ensures forall e | e in ParseList(lines) :: IsWord(Visible, e.src) && IsWord(Visible, e.dst)
  {
    if lines != [] {
      ParsedColumns(lines[0]);
      ParsedList(lines[1..]);
    }
  }

  // ---------------------------------------------------------------- lines that print an entry

  predicate Blank(s: string) {
    forall i | 0 <= i < |s| :: IsSpace(s[i])
  }

  lemma {:induction false} TrimStartPadded(pad: string, s: string)
    requires Blank(pad) && s != [] && Visible(s[0])
    ensures TrimStart(pad + s) == s
  {
    if pad == [] {
      assert pad + s == s;
    } else {
      assert (pad + s)[1..] == pad[1..] + s;
      TrimStartPadded(pad[1..], s);
    }
  }

  lemma {:induction false} TrimEndPadded(s: string, pad: string)
    requires Blank(pad) && s != [] && Visible(s[|s| - 1])
    ensures TrimEnd(s + pad) == s
  {
    if pad == [] {
      assert s + pad == s;
    } else {
      var t := s + pad;
      assert t[..|t| - 1] == s + pad[..|pad| - 1];
      assert t[|t| - 1] == pad[|pad| - 1];
      TrimEndPadded(s, pad[..|pad| - 1]);
    }
  }

  lemma TrimPadded(before: string, s: string, after: string)
    requires Blank(before) && Blank(after) && s != [] && Visible(s[0]) && Visible(s[|s| - 1])
    ensures Trim(before + s + after) == s
  {
    assert before + s + after == before + (s + after);
    TrimStartPadded(before, s + after);
    TrimEndPadded(s, after);
  }

  lemma {:induction false} KeepWordsConcat(w: CharClass, a: seq<string>, b: seq<string>)
    ensures KeepWords(w, a + b) == KeepWords(w, a) + KeepWords(w, b)
  {
    if a == [] {
      assert a + b == b;
    } else {
      var head := if IsWord(w, a[0]) then [a[0]] else [];
      assert (a + b)[1..] == a[1..] + b;
      KeepWordsConcat(w, a[1..], b);
      ConcatAssociative(head, KeepWords(w, a[1..]), KeepWords(w, b));
    }
  }

  lemma FieldsOfOne(a: string)
    requires IsWord(Visible, a)
    ensures Fields(a) == [a]
  {
    SplitOfRun(Visible, a);
    assert KeepWords(Visible, [a]) == [a] + KeepWords(Visible, []);
  }

  /** What follows the first two columns is further columns, or nothing. */
  predicate Continues(rest: string) {
    rest == [] || IsSpace(rest[0])
  }

  lemma FieldsOfMore(s: string, rest: string)
    requires s != [] && Visible(s[|s| - 1]) && Continues(rest)
    ensures Fields(s + rest) == Fields(s) + Fields(rest)
  {
    if rest == [] {
      assert s + rest == s;
    } else {
      SplitConcat(Visible, s, rest);
      KeepWordsConcat(Visible, Split(Visible, s), Split(Visible, rest));
    }
  }

  lemma FieldsOfSpaced(sep: string, b: string)
    requires IsWord(Visible, b) && Blank(sep) && sep != []
    ensures Fields(sep + b) == [b]
  {
    SplitOfRun(Visible, sep);
    SplitOfRun(Visible, b);
    SplitConcat(Visible, sep, b);
    assert [sep, b][1..] == [b] && [b][1..] == [] && !Visible(sep[0]);
    assert KeepWords(Visible, [b]) == [b];
  }

  lemma FieldsOfTwo(a: string, sep: string, b: string)
    requires IsWord(Visible, a) && IsWord(Visible, b) && Blank(sep) && sep != []
    ensures Fields(a + sep + b) == [a, b]
  {
    var rest := sep + b;
    assert rest[0] == sep[0];
    FieldsOfOne(a);
    FieldsOfSpaced(sep, b);
    FieldsOfMore(a, rest);
    ConcatAssociative(a, sep, b);
  }

  lemma {:induction false} TrimEndKeeps(s: string, rest: string) returns (kept: string)
    requires s != [] && Visible(s[|s| - 1])
    ensures kept <= rest && TrimEnd(s + rest) == s + kept
  {
    var t := s + rest;
    if rest != [] && IsSpace(rest[|rest| - 1]) {
      assert t[..|t| - 1] == s + rest[..|rest| - 1];
      kept := TrimEndKeeps(s, rest[..|rest| - 1]);
    } else {
      kept := rest;
      assert rest != [] ==> t[|t| - 1] == rest[|rest| - 1];
      assert rest == [] ==> t == s;
    }
  }

  // ---------------------------------------------------------------- whole lists, printed and parsed

  /** How a line is written: its name alone, or with its target and perhaps more columns, padded in any way. */
  datatype Style = Short(before: string, after: string) | Long(before: string, sep: string, rest: string)

  predicate Fits(s: Style, e: Entry) {
    && IsWord(Visible, e.src) && IsWord(Visible, e.dst) && Blank(s.before)
    && match s
       case Short(_, after) => Blank(after) && e.dst == "rs_" + e.src
       case Long(_, sep, rest) => Blank(sep) && sep != [] && Continues(rest)
  }

  function Print(s: Style, e: Entry): string {
    match s
    case Short(before, after) => before + e.src + after
    case Long(before, sep, rest) => before + (e.src + sep + e.dst + rest)
  }

  lemma LongParses(before: string, a: string, sep: string, b: string, rest: string)
    requires Blank(before) && Blank(sep) && sep != [] && Continues(rest)
    requires IsWord(Visible, a) && IsWord(Visible, b)
    ensures ParseLine(before + (a + sep + b + rest)) == Some(Entry(a, b))
  {
    var s := a + sep + b;
    assert s[0] == a[0] && s[|s| - 1] == b[|b| - 1];
    assert (s + rest)[0] == a[0];
    TrimStartPadded(before, s + rest);
    var kept := TrimEndKeeps(s, rest);
    FieldsOfTwo(a, sep, b);
    FieldsOfMore(s, kept);
    assert (s + kept) != [];
  }

  /** However it is padded, a one-column line asks for the prefix and a longer line names its target. */
  lemma ParsePrinted(s: Style, e: Entry)
    requires Fits(s, e)
    ensures ParseLine(Print(s, e)) == Some(e)
  {
    match s {
      case Short(before, after) =>
        TrimPadded(before, e.src, after);
        FieldsOfOne(e.src);
      case Long(before, sep, rest) =>
        LongParses(before, e.src, sep, e.dst, rest);
    }
  }

  lemma {:induction false} ParseConcat(a: seq<string>, b: seq<string>)
    ensures ParseList(a + b) == ParseList(a) + ParseList(b)
  {
    if a == [] {
      assert a + b == b;
    } else {
      var head := match ParseLine(a[0]) case None => [] case Some(e) => [e];
      assert (a + b)[1..] == a[1..] + b;
      ParseConcat(a[1..], b);
      ConcatAssociative(head, ParseList(a[1..]), ParseList(b));
    }
  }

  lemma ParseAround(a: seq<string>, line: string, b: seq<string>)
    ensures ParseList(a + [line] + b) == ParseList(a) + ParseList([line]) + ParseList(b)
  {
    ParseConcat(a + [line], b);
    ParseConcat(a, [line]);
  }

  lemma ParseOne(line: string)
    ensures ParseList([line]) == match ParseLine(line) case None => [] case Some(e) => [e]
  {
    assert [line][1..] == [];
  }

  /** A line contributes exactly its own columns, wherever it stands. */
  lemma LineContributes(a: seq<string>, s: Style, e: Entry, b: seq<string>)
    requires Fits(s, e)
    ensures ParseList(a + [Print(s, e)] + b) == ParseList(a) + [e] + ParseList(b)
  {
    ParsePrinted(s, e);
    ParseOne(Print(s, e));
    ParseAround(a, Print(s, e), b);
  }

  /** A blank line contributes nothing. */
  lemma BlankContributes(a: seq<string>, line: string, b: seq<string>)
    requires Blank(line)
    ensures ParseList(a + [line] + b) == ParseList(a) + ParseList(b)
  {
    ParsedColumns(line);
    ParseOne(line);
    ParseAround(a, line, b);
    assert ParseList(a) + [] == ParseList(a);
  }

  predicate AllBlank(lines: seq<string>) {
    forall i | 0 <= i < |lines| :: Blank(lines[i])
  }

  /** The printed entries in order, with `gaps[i]` before the `i`-th and the last gap at the end. */
  function Layout(gaps: seq<seq<string>>, printed: seq<string>): seq<string>
    requires |gaps| == |printed| + 1
  {
    gaps[0] + if printed == [] then [] else [printed[0]] + Layout(gaps[1..], printed[1..])
  }

  lemma {:induction false} BlankLinesVanish(lines: seq<string>)
    requires AllBlank(lines)
    ensures ParseList(lines) == []
  {
    if lines != [] {
      ParsedColumns(lines[0]);
      BlankLinesVanish(lines[1..]);
    }
  }

  /**
   Round trip of a whole list: any entries, printed one to a line in any style, with any blank lines before,
   between and after them, are what the list parses to, in that order.
   */
  lemma {:induction false} ListRoundTrip(es: seq<Entry>, styles: seq<Style>, gaps: seq<seq<string>>,
                                         printed: seq<string>)
    requires |styles| == |printed| == |es| && |gaps| == |es| + 1
    requires forall i | 0 <= i < |es| :: Fits(styles[i], es[i]) && printed[i] == Print(styles[i], es[i])
    requires forall i | 0 <= i < |gaps| :: AllBlank(gaps[i])
    ensures ParseList(Layout(gaps, printed)) == es
  {
    BlankLinesVanish(gaps[0]);
    if es == [] {
      assert Layout(gaps, printed) == gaps[0];
    } else {
      var rest := Layout(gaps[1..], printed[1..]);
      ListRoundTrip(es[1..], styles[1..], gaps[1..], printed[1..]);
      ParseConcat(gaps[0], [printed[0]] + rest);
      ParsePrinted(styles[0], es[0]);
      assert ([printed[0]] + rest)[1..] == rest;
      assert ParseList([printed[0]] + rest) == [es[0]] + es[1..];
    }
  }

  /** White space are these 25 code points. */
  lemma SpacesAre(c: char)
    ensures IsSpace(c)
       <==> c as int in {9, 10, 11, 12, 13, 32, 133, 160, 5760, 8192, 8193, 8194, 8195, 8196, 8197, 8198, 8199, 8200,
                         8201, 8202, 8232, 8233, 8239, 8287, 12288}
  {
  }

  /**
   The name handed to bindgen is the name the pass produces exactly on the lines that are one
   column without surrounding white space; on any other line the binding is silently missing.
   */
  lemma AllowlistAgrees(line: string)
    ensures ParseLine(line).Some? && AllowlistName(line) == ParseLine(line).value.dst
       <==> line != [] && forall i | 0 <= i < |line| :: Visible(line[i])
  {
    ParsedColumns(line);
    if line != [] && forall i | 0 <= i < |line| :: Visible(line[i]) {
      assert Trim(line) == line;
      FieldsOfOne(line);
    }
    if ParseLine(line).Some? && AllowlistName(line) == ParseLine(line).value.dst {
      var dst := ParseLine(line).value.dst;
      assert forall i | 0 <= i < |line| :: line[i] == dst[i + |FNC_PREFIX|];
    }
  }
}
