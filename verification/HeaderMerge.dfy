/**
 `RequestBuilder::headers` (livekit-api/src/http_client.rs:134-159): a multimap, flattened into a
 stream that names each key once, is written into another multimap through a remembered entry.

 Header names are stored in canonical case (they are case-insensitive, section 5.1 of RFC 9110), so
 equal names are equal keys. The values of one name are ordered (section 5.3 of RFC 9110).
 */
module HeaderMerge {
  import opened Wrappers

  /** Every name in use has at least one value. */
  type HeaderMap = map<string, seq<string>>

  /** What iterating a header map by value yields: the name with its first value, then bare values. */
  datatype Item = Item(key: Option<string>, value: string)

  /** A name with its values, of which there is at least one. */
  datatype Group = Group(name: string, first: string, more: seq<string>) {
    function Values(): seq<string> {
      [first] + more
    }
  }

  function Continuation(vs: seq<string>): seq<Item> {
    if vs == [] then [] else [Item(None, vs[0])] + Continuation(vs[1..])
  }

  function GroupItems(g: Group): seq<Item> {
    [Item(Some(g.name), g.first)] + Continuation(g.more)
  }

  function Stream(gs: seq<Group>): seq<Item> {
    if gs == [] then [] else GroupItems(gs[0]) + Stream(gs[1..])
  }

  /** The multimap that a list of groups describes; a repeated name counts once, with its last group. */
  function ToMap(gs: seq<Group>): HeaderMap {
    if gs == [] then map[] else map[gs[0].name := gs[0].Values()] + ToMap(gs[1..])
  }

  /** One iteration of the loop on the map; `prev` is the entry touched last. */
  function Write(h: HeaderMap, prev: Option<string>, item: Item): HeaderMap
    requires item.key.None? ==> prev.Some? && prev.value in h
  {
    match item.key
    case Some(k) => h[k := [item.value]]
    case None => h[prev.value := h[prev.value] + [item.value]]
  }

  function MergeFrom(h: HeaderMap, prev: Option<string>, s: seq<Item>): HeaderMap
    requires prev.Some? ==> prev.value in h
    requires s != [] && s[0].key.None? ==> prev.Some?
    decreases |s|
  {
    if s == [] then h
    else
      var k := if s[0].key.Some? then s[0].key else prev;
      MergeFrom(Write(h, prev, s[0]), k, s[1..])
  }

  class RequestBuilder {
    var headers: HeaderMap

    /** `panicked` tells that the `unreachable!` arm was reached. */
    method Headers(incoming: seq<Item>) returns (panicked: bool)
      modifies this
      ensures panicked <==> incoming != [] && incoming[0].key.None?
      ensures panicked ==> headers == old(headers)
      ensures !panicked ==> headers == old(headers) + ToMap(Groups(incoming))
      ensures !panicked ==> headers == MergeFrom(old(headers), None, incoming)
    {
      var prevEntry: Option<string> := None;
      var i := 0;
      while i < |incoming|
        invariant i <= |incoming|
        invariant prevEntry.Some? ==> prevEntry.value in headers
        invariant if i == 0 then prevEntry.None? && headers == old(headers)
                  else prevEntry.Some? && incoming[0].key.Some?
        invariant incoming == [] || incoming[0].key.Some? ==>
                    MergeFrom(headers, prevEntry, incoming[i..]) == MergeFrom(old(headers), None, incoming)
      {
        var value := incoming[i].value;
        assert incoming[i..][1..] == incoming[i + 1..];
        ghost var before := headers;
        match incoming[i].key {
          case Some(key) =>
            if key in headers {
              // `OccupiedEntry::insert` drops all values the name had.
              headers := headers[key := [value]];
            } else {
              headers := headers + map[key := [value]];
              assert headers == before[key := [value]];
            }
            prevEntry := Some(key);
          case None =>
            if prevEntry.None? {
              return true;
            }
            headers := headers[prevEntry.value := headers[prevEntry.value] + [value]];
        }
        i := i + 1;
      }
      EveryStreamOverrides(old(headers), incoming);
      return false;
    }
  }

  lemma OverrideTwice(h: HeaderMap, k: string, a: seq<string>, b: seq<string>)
    ensures h[k := a][k := b] == h[k := b]
  {
  }

  lemma OverrideAssociative(h: HeaderMap, a: HeaderMap, b: HeaderMap)
    ensures (h + a) + b == h + (a + b)
  {
  }

  lemma MergeBareValue(h: HeaderMap, name: string, have: seq<string>, v: string, s: seq<Item>, rest: seq<Item>)
    requires s == [Item(None, v)] + rest
    ensures MergeFrom(h[name := have], Some(name), s) == MergeFrom(h[name := have + [v]], Some(name), rest)
  {
    assert s[1..] == rest;
    OverrideTwice(h, name, have, have + [v]);
  }

  lemma OverrideAgain(h: HeaderMap, a: HeaderMap)
    ensures (h + a) + a == h + a
  {
  }

  lemma MoveHead(have: seq<string>, vs: seq<string>)
    requires vs != []
    ensures (have + [vs[0]]) + vs[1..] == have + vs
  {
  }

  /** Bare values all go to the entry they follow, in order. */
  lemma {:induction false} MergeContinuation(h: HeaderMap, name: string, have: seq<string>, vs: seq<string>,
                                             rest: seq<Item>)
    requires rest != [] ==> rest[0].key.Some?
    ensures MergeFrom(h[name := have], Some(name), Continuation(vs) + rest)
         == MergeFrom(h[name := have + vs], Some(name), rest)
    decreases |vs|
  {
    if vs == [] {
      assert Continuation(vs) + rest == rest;
      assert have + vs == have;
    } else {
      var tail, more := Continuation(vs[1..]) + rest, have + [vs[0]];
      var s := Continuation(vs) + rest;
      assert s == [Item(None, vs[0])] + tail;
      MergeBareValue(h, name, have, vs[0], s, tail);
      MergeContinuation(h, name, more, vs[1..], rest);
      MoveHead(have, vs);
    }
  }

  lemma MergeNamed(h: HeaderMap, prev: Option<string>, name: string, value: string, rest: seq<Item>)
    requires prev.Some? ==> prev.value in h
    ensures MergeFrom(h, prev, [Item(Some(name), value)] + rest) == MergeFrom(h[name := [value]], Some(name), rest)
  {
    var s := [Item(Some(name), value)] + rest;
    assert s[1..] == rest;
  }

  lemma MergeGroup(h: HeaderMap, prev: Option<string>, g: Group, rest: seq<Item>)
    requires (prev.Some? ==> prev.value in h) && (rest != [] ==> rest[0].key.Some?)
    ensures MergeFrom(h, prev, GroupItems(g) + rest) == MergeFrom(h[g.name := g.Values()], Some(g.name), rest)
  {
    var named, tail := [Item(Some(g.name), g.first)], Continuation(g.more) + rest;
    assert GroupItems(g) + rest == named + tail;
    MergeNamed(h, prev, g.name, g.first, tail);
    MergeContinuation(h, g.name, [g.first], g.more, rest);
  }

  lemma StreamStartsNamed(gs: seq<Group>)
    ensures Stream(gs) != [] ==> Stream(gs)[0].key.Some?
  {
  }

  /** The loop is an override of one multimap by another, whatever entry it starts from. */
  lemma {:induction false} MergeIsOverride(h: HeaderMap, prev: Option<string>, gs: seq<Group>)
    requires prev.Some? ==> prev.value in h
    ensures Stream(gs) != [] ==> Stream(gs)[0].key.Some?
    ensures MergeFrom(h, prev, Stream(gs)) == h + ToMap(gs)
    decreases |gs|
  {
    if gs == [] {
      assert h + map[] == h;
    } else {
      var g, tail := gs[0], gs[1..];
      StreamStartsNamed(tail);
      MergeGroup(h, prev, g, Stream(tail));
      MergeIsOverride(h[g.name := g.Values()], Some(g.name), tail);
      assert h[g.name := g.Values()] == h + map[g.name := g.Values()];
      OverrideAssociative(h, map[g.name := g.Values()], ToMap(tail));
    }
  }

  /** Length of the bare values at the start of a stream. */
  function Bare(s: seq<Item>): (n: nat)
    ensures n <= |s| && (n < |s| ==> s[n].key.Some?)
  {
    if s == [] || s[0].key.Some? then 0 else 1 + Bare(s[1..])
  }

  function BareValues(s: seq<Item>, n: nat): seq<string>
    requires n <= |s|
  {
    if n == 0 then [] else [s[0].value] + BareValues(s[1..], n - 1)
  }

  function Groups(s: seq<Item>): seq<Group>
    requires s != [] ==> s[0].key.Some?
    decreases |s|
  {
    if s == [] then []
    else
      var n := Bare(s[1..]);
      [Group(s[0].key.value, s[0].value, BareValues(s[1..], n))] + Groups(s[1 + n..])
  }

  lemma {:induction false} BareIsContinuation(s: seq<Item>)
    ensures Continuation(BareValues(s, Bare(s))) == s[..Bare(s)]
  {
    if s != [] && s[0].key.None? {
      BareIsContinuation(s[1..]);
      var vs := BareValues(s[1..], Bare(s[1..]));
      assert BareValues(s, Bare(s)) == [s[0].value] + vs;
      assert ([s[0].value] + vs)[1..] == vs;
      assert s[..Bare(s)] == [s[0]] + s[1..][..Bare(s[1..])];
    }
  }

  /** Every stream the loop can finish is a stream of groups. */
  lemma {:induction false} StreamOfGroups(s: seq<Item>)
    requires s != [] ==> s[0].key.Some?
    ensures Stream(Groups(s)) == s
    decreases |s|
  {
    if s != [] {
      var n := Bare(s[1..]);
      StreamOfGroups(s[1 + n..]);
      BareIsContinuation(s[1..]);
      var g := Group(s[0].key.value, s[0].value, BareValues(s[1..], n));
      assert s == [s[0]] + s[1..][..n] + s[1 + n..];
      assert GroupItems(g) == [s[0]] + s[1..][..n];
    }
  }

  /** For every stream, named keys end with the values of their last group; all other names keep theirs. */
  lemma EveryStreamOverrides(h: HeaderMap, s: seq<Item>)
    requires s != [] ==> s[0].key.Some?
    ensures MergeFrom(h, None, s) == h + ToMap(Groups(s))
  {
    StreamOfGroups(s);
    MergeIsOverride(h, None, Groups(s));
  }

  /** Items `i` to `j` are one name with its values: a named one, bare ones, then another name or the end. */
  predicate IsGroupAt(s: seq<Item>, i: nat, j: nat) {
    && i < j <= |s| && s[i].key.Some?
    && (forall t | i < t < j :: s[t].key.None?)
    && (j < |s| ==> s[j].key.Some?)
  }

  predicate Unnamed(s: seq<Item>, k: string, from: nat) {
    forall t | from <= t < |s| :: s[t].key != Some(k)
  }

  lemma {:induction false} MergeUnnamed(h: HeaderMap, prev: Option<string>, s: seq<Item>, k: string)
    requires (prev.Some? ==> prev.value in h) && (s != [] && s[0].key.None? ==> prev.Some?)
    requires Unnamed(s, k, 0) && prev != Some(k)
    ensures k in MergeFrom(h, prev, s) <==> k in h
    ensures k in h ==> MergeFrom(h, prev, s)[k] == h[k]
    decreases |s|
  {
    if s != [] {
      var next := if s[0].key.Some? then s[0].key else prev;
      assert forall t | 0 <= t < |s| - 1 :: s[1..][t] == s[t + 1];
      MergeUnnamed(Write(h, prev, s[0]), next, s[1..], k);
    }
  }

  /** While bare values come, they are appended to the name's values in order; what follows does not matter. */
  lemma {:induction false} MergeBare(h: HeaderMap, s: seq<Item>, k: string, n: nat)
    requires k in h && n <= |s| && (forall t | 0 <= t < n :: s[t].key.None?) && (n < |s| ==> s[n].key.Some?)
    requires Unnamed(s, k, n)
    ensures k in MergeFrom(h, Some(k), s)
    ensures MergeFrom(h, Some(k), s)[k] == h[k] + seq(n, t requires 0 <= t < n => s[t].value)
    decreases n
  {
    if n == 0 {
      if s != [] {
        var next := Write(h, Some(k), s[0]);
        assert forall t | 0 <= t < |s| - 1 :: s[1..][t] == s[t + 1];
        assert s[0].key != Some(k);
        MergeUnnamed(next, s[0].key, s[1..], k);
      }
    } else {
      var rest := s[1..];
      assert forall t | 0 <= t < |rest| :: rest[t] == s[t + 1];
      var next := h[k := h[k] + [s[0].value]];
      MergeBare(next, rest, k, n - 1);
      assert [s[0].value] + seq(n - 1, t requires 0 <= t < n - 1 => rest[t].value)
          == seq(n, t requires 0 <= t < n => s[t].value);
    }
  }

  /**
   After the merge, a name that the stream holds has exactly the values of its last group, in order, and every
   other name what it had.
   */
  lemma {:induction false} MergedValues(h: HeaderMap, prev: Option<string>, s: seq<Item>, k: string, i: nat, j: nat)
    requires (prev.Some? ==> prev.value in h) && (s != [] && s[0].key.None? ==> prev.Some?)
    requires IsGroupAt(s, i, j) && s[i].key == Some(k) && Unnamed(s, k, j)
    ensures k in MergeFrom(h, prev, s)
    ensures MergeFrom(h, prev, s)[k] == seq(j - i, t requires 0 <= t < j - i => s[i + t].value)
    decreases |s|
  {
    var rest := s[1..];
    assert forall t | 0 <= t < |rest| :: rest[t] == s[t + 1];
    var next := if s[0].key.Some? then s[0].key else prev;
    if i == 0 {
      MergeBare(Write(h, prev, s[0]), rest, k, j - 1);
      assert [s[0].value] + seq(j - 1, t requires 0 <= t < j - 1 => rest[t].value)
          == seq(j, t requires 0 <= t < j => s[t].value);
    } else {
      MergedValues(Write(h, prev, s[0]), next, rest, k, i - 1, j - 1);
      assert seq(j - i, t requires 0 <= t < j - i => rest[i - 1 + t].value)
          == seq(j - i, t requires 0 <= t < j - i => s[i + t].value);
    }
  }

  // ---------------------------------------------------------------- header maps as streams

  /** `gs` lists the entries of `m`, each name once, in any order. */
  predicate Lists(gs: seq<Group>, m: HeaderMap) {
    && (forall i, j | 0 <= i < j < |gs| :: gs[i].name != gs[j].name)
    && (forall i | 0 <= i < |gs| :: gs[i].name in m && m[gs[i].name] == gs[i].Values())
    && (forall k | k in m :: exists i :: 0 <= i < |gs| && gs[i].name == k)
  }

  lemma {:induction false} ToMapMember(gs: seq<Group>, k: string)
    ensures k in ToMap(gs) ==> exists i :: 0 <= i < |gs| && gs[i].name == k && gs[i].Values() == ToMap(gs)[k]
    ensures (exists i :: 0 <= i < |gs| && gs[i].name == k) ==> k in ToMap(gs)
    decreases |gs|
  {
    if gs != [] {
      ToMapMember(gs[1..], k);
      assert forall i | 0 < i < |gs| :: gs[i] == gs[1..][i - 1];
      if k in ToMap(gs[1..]) {
        var i :| 0 <= i < |gs[1..]| && gs[1..][i].name == k && gs[1..][i].Values() == ToMap(gs[1..])[k];
        assert gs[i + 1] == gs[1..][i];
      }
    }
  }

  lemma ListedAt(gs: seq<Group>, m: HeaderMap, k: string)
    requires Lists(gs, m)
    ensures (k in ToMap(gs) <==> k in m) && (k in m ==> ToMap(gs)[k] == m[k])
  {
    ToMapMember(gs, k);
  }

  lemma ListedIsMap(gs: seq<Group>, m: HeaderMap)
    requires Lists(gs, m)
    ensures ToMap(gs) == m
  {
    var listed := ToMap(gs);
    forall k ensures (k in listed <==> k in m) && (k in m ==> listed[k] == m[k]) {
      ListedAt(gs, m, k);
    }
  }

  /**
   Merging a header map never reaches `unreachable!`, gives each incoming name exactly its incoming
   values in order, leaves the other names alone, and does not depend on the order of the names.
   */
  lemma MergeRefinesOverride(h: HeaderMap, m: HeaderMap, gs: seq<Group>)
    requires Lists(gs, m)
    ensures Stream(gs) != [] ==> Stream(gs)[0].key.Some?
    ensures MergeFrom(h, None, Stream(gs)) == h + m
  {
    ListedIsMap(gs, m);
    MergeIsOverride(h, None, gs);
  }

  /** Two merges are one merge of the first map overridden by the second. */
  lemma MergesCompose(h: HeaderMap, a: HeaderMap, b: HeaderMap, ga: seq<Group>, gb: seq<Group>, gab: seq<Group>)
    requires Lists(ga, a) && Lists(gb, b) && Lists(gab, a + b)
    ensures (Stream(ga) != [] ==> Stream(ga)[0].key.Some?) && (Stream(gb) != [] ==> Stream(gb)[0].key.Some?)
    ensures (Stream(gab) != [] ==> Stream(gab)[0].key.Some?)
    ensures MergeFrom(MergeFrom(h, None, Stream(ga)), None, Stream(gb)) == MergeFrom(h, None, Stream(gab))
  {
    MergeRefinesOverride(h, a, ga);
    MergeRefinesOverride(h + a, b, gb);
    MergeRefinesOverride(h, a + b, gab);
    OverrideAssociative(h, a, b);
  }

  /** Repeating a merge, with the names in any order, changes nothing. */
  lemma MergeRepeated(h: HeaderMap, a: HeaderMap, ga: seq<Group>, again: seq<Group>)
    requires Lists(ga, a) && Lists(again, a)
    ensures (Stream(ga) != [] ==> Stream(ga)[0].key.Some?) && (Stream(again) != [] ==> Stream(again)[0].key.Some?)
    ensures MergeFrom(MergeFrom(h, None, Stream(ga)), None, Stream(again)) == MergeFrom(h, None, Stream(ga))
  {
    MergeRefinesOverride(h, a, ga);
    MergeRefinesOverride(h + a, a, again);
    OverrideAgain(h, a);
  }

  /** Merging into an empty builder reproduces the incoming map. */
  lemma MergeIntoEmpty(a: HeaderMap, ga: seq<Group>)
    requires Lists(ga, a)
    ensures Stream(ga) != [] ==> Stream(ga)[0].key.Some?
    ensures MergeFrom(map[], None, Stream(ga)) == a
  {
    MergeRefinesOverride(map[], a, ga);
    assert map[] + a == a;
  }
}
