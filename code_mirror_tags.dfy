/**
 * The tag decorations of src/code-mirror-editor.jsx: every occurrence of a
 * tag text of `componentMap` in the document is covered by an atomic
 * replace-decoration; Backspace/Delete next to one removes it whole; and a
 * tag text can be inserted at the cursor.
 *
 * Offsets are 0-based character offsets into the document. The regular
 * expression built from the escaped tag text is modelled as what the
 * escaping makes it: a search for the literal tag text.
 */
module CodeMirrorTags {
  import opened Wrappers

  // ---------------------------------------------------------------------
  // Escaping (`tagText.replace(/[.*+?^${}()|[\]\\]/g, "\\$&")`)
  // ---------------------------------------------------------------------

  /** The characters a regular expression treats specially. */
  predicate IsRegexMeta(c: char)
  {
    c in ".*+?^${}()|[]\\"
  }

  /** Every metacharacter gets a backslash in front of it. */
  function Escape(s: string): (e: string)
    ensures |e| >= |s|
    decreases |s|
  {
    if s == [] then ""
    else (if IsRegexMeta(s[0]) then ['\\', s[0]] else [s[0]]) + Escape(s[1..])
  }

  /** Reading an escaped pattern back: a backslash stands for the character after it. */
  function Unescape(e: string): string
    decreases |e|
  {
    if e == [] then ""
    else if e[0] == '\\' && |e| >= 2 then [e[1]] + Unescape(e[2..])
    else [e[0]] + Unescape(e[1..])
  }

  /** Escaping is one-to-one: it loses no character and adds only backslashes before metacharacters. */
  lemma {:induction false} UnescapeEscape(s: string)
    ensures Unescape(Escape(s)) == s
    decreases |s|
  {
    if s != [] {
      UnescapeEscape(s[1..]);
      var rest := Escape(s[1..]);
      if IsRegexMeta(s[0]) {
        assert Escape(s) == ['\\', s[0]] + rest;
        assert (['\\', s[0]] + rest)[2..] == rest;
      } else {
        assert Escape(s) == [s[0]] + rest;
        assert s[0] != '\\';
        assert ([s[0]] + rest)[1..] == rest;
      }
      assert s == [s[0]] + s[1..];
    }
  }

  /** The escaped text is the characters of `s`, one by one, each with a backslash when it is a metacharacter. */
  lemma {:induction false} EscapeConcat(a: string, b: string)
    ensures Escape(a + b) == Escape(a) + Escape(b)
    decreases |a|
  {
    if a != [] {
      assert (a + b)[1..] == a[1..] + b;
      assert (a + b)[0] == a[0];
      EscapeConcat(a[1..], b);
    } else {
      assert a + b == b;
    }
  }

  /** A text without metacharacters is its own pattern. */
  lemma {:induction false} EscapePlain(s: string)
    requires forall i :: 0 <= i < |s| ==> !IsRegexMeta(s[i])
    ensures Escape(s) == s
    decreases |s|
  {
    if s != [] {
      EscapePlain(s[1..]);
      assert s == [s[0]] + s[1..];
    }
  }

  // ---------------------------------------------------------------------
  // Finding occurrences (`regex.exec` in a loop with the `g` flag)
  // ---------------------------------------------------------------------

  /** A decoration built by `builder.add(from, to, Decoration.replace({..., atomic: true}))`. */
  datatype Deco = Deco(from: nat, to: nat, tagText: string, atomic: bool)

  /** The keys of `componentMap`, in `Object.keys` order. */
  const ComponentKeys: seq<string> := ["<MyComponent />", "<AnotherComponent />"]

  predicate OccursAt(doc: string, tag: string, p: nat)
  {
    p + |tag| <= |doc| && doc[p..p + |tag|] == tag
  }

  /** `regex.exec(doc)` from `lastIndex`: the leftmost occurrence at or after `from`. */
  function IndexOf(doc: string, tag: string, from: nat): (m: Option<nat>)
    ensures m.Some? ==> from <= m.value && OccursAt(doc, tag, m.value)
    decreases |doc| - from
  {
    if from + |tag| > |doc| then None
    else if doc[from..from + |tag|] == tag then Some(from)
    else IndexOf(doc, tag, from + 1)
  }

  /** The search finds the leftmost occurrence, and finds nothing only when there is none. */
  lemma {:induction false} IndexOfLeftmost(doc: string, tag: string, from: nat)
    ensures var m := IndexOf(doc, tag, from);
      && (m.Some? ==> forall q :: from <= q < m.value ==> !OccursAt(doc, tag, q))
      && (m.None? ==> forall q :: from <= q ==> !OccursAt(doc, tag, q))
    decreases |doc| - from
  {
    if from + |tag| <= |doc| && doc[from..from + |tag|] != tag {
      IndexOfLeftmost(doc, tag, from + 1);
    }
  }

  /**
   * The matches the exec loop reports once `lastIndex` is `from`: each match
   * moves `lastIndex` to its end.
   */
  function Occurrences(doc: string, tag: string, from: nat): seq<Deco>
    requires |tag| > 0
    decreases |doc| - from
  {
    match IndexOf(doc, tag, from)
    case None => []
    case Some(p) => [Deco(p, p + |tag|, tag, true)] + Occurrences(doc, tag, p + |tag|)
  }

  /** Each reported range covers exactly one occurrence of the tag text at or after `from`. */
  predicate CoversTag(doc: string, tag: string, from: nat, ds: seq<Deco>)
  {
    forall i :: 0 <= i < |ds| ==>
      && from <= ds[i].from
      && ds[i].to == ds[i].from + |tag|
      && OccursAt(doc, tag, ds[i].from)
      && ds[i].tagText == tag && ds[i].atomic
  }

  /** Ranges are increasing and do not overlap. */
  predicate Disjoint(ds: seq<Deco>)
  {
    forall i, j :: 0 <= i < j < |ds| ==> ds[i].to <= ds[j].from
  }

  /** Every occurrence at or after `from` starts a reported range or lies inside an earlier one. */
  predicate Complete(doc: string, tag: string, from: nat, ds: seq<Deco>)
  {
    forall p :: from <= p <= |doc| && OccursAt(doc, tag, p) ==> exists i :: 0 <= i < |ds| && ds[i].from <= p < ds[i].to
  }

  /** Unfolding one step of the exec loop. */
  lemma OccurrencesStep(doc: string, tag: string, from: nat, p: nat)
    requires |tag| > 0 && IndexOf(doc, tag, from) == Some(p)
    ensures Occurrences(doc, tag, from) == [Deco(p, p + |tag|, tag, true)] + Occurrences(doc, tag, p + |tag|)
  {
  }

  /** A leftmost match in front of matches that all lie after it keeps every range an occurrence. */
  lemma CoversCons(doc: string, tag: string, from: nat, p: nat, rest: seq<Deco>)
    requires from <= p && OccursAt(doc, tag, p)
    requires CoversTag(doc, tag, p + |tag|, rest)
    ensures CoversTag(doc, tag, from, [Deco(p, p + |tag|, tag, true)] + rest)
  {
    var ds := [Deco(p, p + |tag|, tag, true)] + rest;
    forall i | 1 <= i < |ds| ensures ds[i] == rest[i - 1] { }
  }

  /** Each reported range is an occurrence of the tag text at or after `from`. */
  lemma {:induction false} OccurrencesCover(doc: string, tag: string, from: nat)
    requires |tag| > 0
    ensures CoversTag(doc, tag, from, Occurrences(doc, tag, from))
    decreases |doc| - from
  {
    var m := IndexOf(doc, tag, from);
    if m.Some? {
      OccurrencesCover(doc, tag, m.value + |tag|);
      CoverStep(doc, tag, from, m.value);
    }
  }

  /** The induction step of `OccurrencesCover`. */
  lemma CoverStep(doc: string, tag: string, from: nat, p: nat)
    requires |tag| > 0 && IndexOf(doc, tag, from) == Some(p)
    requires CoversTag(doc, tag, p + |tag|, Occurrences(doc, tag, p + |tag|))
    ensures CoversTag(doc, tag, from, Occurrences(doc, tag, from))
  {
    OccurrencesStep(doc, tag, from, p);
    CoversCons(doc, tag, from, p, Occurrences(doc, tag, p + |tag|));
  }

  /** Every reported range starts at or after `from`. */
  lemma {:induction false} OccurrencesFrom(doc: string, tag: string, from: nat)
    requires |tag| > 0
    ensures forall i :: 0 <= i < |Occurrences(doc, tag, from)| ==> from <= Occurrences(doc, tag, from)[i].from
    decreases |doc| - from
  {
    var m := IndexOf(doc, tag, from);
    if m.Some? {
      var p := m.value;
      OccurrencesFrom(doc, tag, p + |tag|);
      OccurrencesStep(doc, tag, from, p);
    }
  }

  /** A range in front of non-overlapping ranges that all start after its end keeps them non-overlapping. */
  lemma DisjointCons(d: Deco, rest: seq<Deco>)
    requires Disjoint(rest)
    requires forall i :: 0 <= i < |rest| ==> d.to <= rest[i].from
    ensures Disjoint([d] + rest)
  {
    var ds := [d] + rest;
    forall i, j | 0 <= i < j < |ds| ensures ds[i].to <= ds[j].from {
      assert ds[j] == rest[j - 1];
      if i > 0 { assert ds[i] == rest[i - 1]; }
    }
  }

  /** The reported ranges are increasing and never overlap. */
  lemma {:induction false} OccurrencesDisjoint(doc: string, tag: string, from: nat)
    requires |tag| > 0
    ensures Disjoint(Occurrences(doc, tag, from))
    decreases |doc| - from
  {
    var m := IndexOf(doc, tag, from);
    if m.Some? {
      OccurrencesDisjoint(doc, tag, m.value + |tag|);
      DisjointStep(doc, tag, from, m.value);
    }
  }

  /** The induction step of `OccurrencesDisjoint`: the next match ends before every later one starts. */
  lemma DisjointStep(doc: string, tag: string, from: nat, p: nat)
    requires |tag| > 0 && IndexOf(doc, tag, from) == Some(p)
    requires Disjoint(Occurrences(doc, tag, p + |tag|))
    ensures Disjoint(Occurrences(doc, tag, from))
  {
    var d, rest := Deco(p, p + |tag|, tag, true), Occurrences(doc, tag, p + |tag|);
    OccurrencesFrom(doc, tag, p + |tag|);
    DisjointCons(d, rest);
    OccurrencesStep(doc, tag, from, p);
  }

  /** One leftmost match in front of a complete report of the rest is a complete report. */
  lemma CompleteCons(doc: string, tag: string, from: nat, p: nat, rest: seq<Deco>)
    requires |tag| > 0 && IndexOf(doc, tag, from) == Some(p)
    requires Complete(doc, tag, p + |tag|, rest)
    ensures Complete(doc, tag, from, [Deco(p, p + |tag|, tag, true)] + rest)
  {
    var ds := [Deco(p, p + |tag|, tag, true)] + rest;
    IndexOfLeftmost(doc, tag, from);
    forall q | from <= q <= |doc| && OccursAt(doc, tag, q)
      ensures exists i :: 0 <= i < |ds| && ds[i].from <= q < ds[i].to
    {
      if q < p + |tag| {
        assert p <= q;
        assert ds[0].from <= q < ds[0].to;
      } else {
        var i :| 0 <= i < |rest| && rest[i].from <= q < rest[i].to;
        assert ds[i + 1] == rest[i];
      }
    }
  }

  /** No occurrence is missed: each one starts a reported range or lies inside an earlier one. */
  lemma {:induction false} OccurrencesComplete(doc: string, tag: string, from: nat)
    requires |tag| > 0
    ensures Complete(doc, tag, from, Occurrences(doc, tag, from))
    decreases |doc| - from
  {
    var m := IndexOf(doc, tag, from);
    if m.Some? {
      OccurrencesComplete(doc, tag, m.value + |tag|);
      CompleteStep(doc, tag, from, m.value);
    } else {
      IndexOfLeftmost(doc, tag, from);
    }
  }

  /** The induction step of `OccurrencesComplete`: the leftmost match in front of a complete report of the rest. */
  lemma CompleteStep(doc: string, tag: string, from: nat, p: nat)
    requires |tag| > 0 && IndexOf(doc, tag, from) == Some(p)
    requires Complete(doc, tag, p + |tag|, Occurrences(doc, tag, p + |tag|))
    ensures Complete(doc, tag, from, Occurrences(doc, tag, from))
  {
    OccurrencesStep(doc, tag, from, p);
    CompleteCons(doc, tag, from, p, Occurrences(doc, tag, p + |tag|));
  }

  /** What the exec loop reports is sound, ordered and non-overlapping, and complete. */
  lemma OccurrencesCorrect(doc: string, tag: string, from: nat)
    requires |tag| > 0
    ensures CoversTag(doc, tag, from, Occurrences(doc, tag, from))
    ensures Disjoint(Occurrences(doc, tag, from))
    ensures Complete(doc, tag, from, Occurrences(doc, tag, from))
  {
    OccurrencesCover(doc, tag, from);
    OccurrencesDisjoint(doc, tag, from);
    OccurrencesComplete(doc, tag, from);
  }

  /** The matches found so far, followed by those from `lastIndex` on, are all the matches. */
  predicate FoundSoFar(doc: string, tag: string, lastIndex: nat, found: seq<Deco>)
    requires |tag| > 0
  {
    found + Occurrences(doc, tag, lastIndex) == Occurrences(doc, tag, 0)
  }

  /** Reporting the next match moves it from the matches still to come to the ones found. */
  lemma ReportMatch(doc: string, tag: string, lastIndex: nat, p: nat, found: seq<Deco>)
    requires |tag| > 0 && IndexOf(doc, tag, lastIndex) == Some(p)
    requires FoundSoFar(doc, tag, lastIndex, found)
    ensures FoundSoFar(doc, tag, p + |tag|, found + [Deco(p, p + |tag|, tag, true)])
  {
    OccurrencesStep(doc, tag, lastIndex, p);
    var d, rest := Deco(p, p + |tag|, tag, true), Occurrences(doc, tag, p + |tag|);
    assert found + ([d] + rest) == (found + [d]) + rest;
  }

  /**
   * The `while ((match = regex.exec(docText)) !== null)` loop for one tag
   * text: the matches are exactly the non-overlapping leftmost occurrences.
   */
  method FindMatches(doc: string, tag: string) returns (found: seq<Deco>)
    requires |tag| > 0
    ensures found == Occurrences(doc, tag, 0)
    ensures CoversTag(doc, tag, 0, found) && Disjoint(found) && Complete(doc, tag, 0, found)
  {
    found := [];
    var lastIndex: nat := 0;
    var m := IndexOf(doc, tag, lastIndex);
    while m.Some?
      invariant m == IndexOf(doc, tag, lastIndex)
      invariant FoundSoFar(doc, tag, lastIndex, found)
      decreases |doc| - lastIndex
    {
      var from := m.value;
      var to: nat := from + |tag|;
      ReportMatch(doc, tag, lastIndex, from, found);
      found := found + [Deco(from, to, tag, true)];
      lastIndex := to;
      m := IndexOf(doc, tag, lastIndex);
    }
    assert Occurrences(doc, tag, lastIndex) == [];
    assert found == Occurrences(doc, tag, 0);
    OccurrencesCorrect(doc, tag, 0);
  }

  /** The decorations the builder receives: all matches of each key in turn, keys in `componentMap` order. */
  function Grouped(doc: string, keys: seq<string>): seq<Deco>
    requires forall j :: 0 <= j < |keys| ==> |keys[j]| > 0
    decreases |keys|
  {
    if keys == [] then []
    else Grouped(doc, keys[..|keys| - 1]) + Occurrences(doc, keys[|keys| - 1], 0)
  }

  /** One more key adds its matches after those of the keys before it. */
  lemma GroupedStep(doc: string, keys: seq<string>, k: nat)
    requires forall j :: 0 <= j < |keys| ==> |keys[j]| > 0
    requires k < |keys|
    ensures Grouped(doc, keys[..k + 1]) == Grouped(doc, keys[..k]) + Occurrences(doc, keys[k], 0)
  {
    assert keys[..k + 1][..k] == keys[..k];
  }

  /** `createDecorations(docText)`, as written: the ranges in the order they are added to the builder. */
  method CreateDecorations(doc: string) returns (decos: seq<Deco>)
    ensures decos == Grouped(doc, ComponentKeys)
  {
    decos := [];
    var k := 0;
    while k < |ComponentKeys|
      invariant 0 <= k <= |ComponentKeys|
      invariant decos == Grouped(doc, ComponentKeys[..k])
    {
      var found := FindMatches(doc, ComponentKeys[k]);
      GroupedStep(doc, ComponentKeys, k);
      decos := decos + found;
      k := k + 1;
    }
    assert ComponentKeys[..k] == ComponentKeys;
  }

  /** With the two keys of `componentMap`, the builder's input is the first key's matches, then the second's. */
  lemma GroupedTwo(doc: string)
    ensures Grouped(doc, ComponentKeys) == Occurrences(doc, ComponentKeys[0], 0) + Occurrences(doc, ComponentKeys[1], 0)
  {
    GroupedPair(doc, ComponentKeys);
  }

  /** The builder's input for two tag texts: the first one's matches, then the second one's. */
  lemma GroupedPair(doc: string, keys: seq<string>)
    requires |keys| == 2 && |keys[0]| > 0 && |keys[1]| > 0
    ensures Grouped(doc, keys) == Occurrences(doc, keys[0], 0) + Occurrences(doc, keys[1], 0)
  {
    var first := Occurrences(doc, keys[0], 0);
    GroupedStep(doc, keys, 0);
    assert keys[..0] == [];
    assert Grouped(doc, keys[..1]) == first by {
      assert [] + first == first;
    }
    GroupedStep(doc, keys, 1);
    assert keys[..2] == keys;
  }

  /** The builder's input is grouped by tag text: first every `<MyComponent />`, then every `<AnotherComponent />`. */
  lemma GroupedByKey(doc: string)
    ensures var first := Occurrences(doc, ComponentKeys[0], 0);
      var ds := Grouped(doc, ComponentKeys);
      forall i :: 0 <= i < |ds| ==> ds[i].tagText == (if i < |first| then ComponentKeys[0] else ComponentKeys[1])
  {
    var k0, k1 := ComponentKeys[0], ComponentKeys[1];
    var first, second := Occurrences(doc, k0, 0), Occurrences(doc, k1, 0);
    GroupedTwo(doc);
    OccurrencesCover(doc, k0, 0);
    OccurrencesCover(doc, k1, 0);
    TaggedConcat(first, second, k0, k1);
  }

  /** Two lists, each carrying one tag text, concatenated: the position tells which tag text an entry carries. */
  lemma TaggedConcat(first: seq<Deco>, second: seq<Deco>, k0: string, k1: string)
    requires forall i :: 0 <= i < |first| ==> first[i].tagText == k0
    requires forall i :: 0 <= i < |second| ==> second[i].tagText == k1
    ensures forall i :: 0 <= i < |first + second| ==> (first + second)[i].tagText == (if i < |first| then k0 else k1)
  {
    var ds := first + second;
    forall i | 0 <= i < |ds| ensures ds[i].tagText == (if i < |first| then k0 else k1) {
      if i >= |first| { assert ds[i] == second[i - |first|]; }
    }
  }

  predicate SortedByFrom(ds: seq<Deco>)
  {
    forall i, j :: 0 <= i < j < |ds| ==> ds[i].from <= ds[j].from
  }

  /**
   * CodeMirror's `RangeSetBuilder` accepts ranges only in order of `from`.
   * A document that starts with `<AnotherComponent />` and holds a
   * `<MyComponent />` anywhere gives a grouped input that is out of order:
   * the first `<MyComponent />` match is added before the match at 0.
   */
  lemma AnotherFirstBreaksOrder(doc: string, q: nat)
    requires OccursAt(doc, ComponentKeys[1], 0) && OccursAt(doc, ComponentKeys[0], q)
    ensures !SortedByFrom(Grouped(doc, ComponentKeys))
  {
    var my, another := ComponentKeys[0], ComponentKeys[1];
    KeysDifferAtStart(doc);
    var first := FirstMatchLater(doc, my, q);
    var second := FirstMatchLater(doc, another, 0);
    GroupedTwo(doc);
    OutOfOrder(first, second);
  }

  /** A document cannot start with both tag texts: they differ in their second character. */
  lemma KeysDifferAtStart(doc: string)
    requires OccursAt(doc, ComponentKeys[1], 0)
    ensures !OccursAt(doc, ComponentKeys[0], 0)
  {
    assert doc[0..|ComponentKeys[1]|][1] == doc[1];
    assert doc[0..|ComponentKeys[0]|][1] == doc[1];
  }

  /** When the tag text occurs at q, its match list is not empty, and it starts at the leftmost occurrence. */
  lemma FirstMatchLater(doc: string, tag: string, q: nat) returns (ds: seq<Deco>)
    requires |tag| > 0 && OccursAt(doc, tag, q)
    ensures ds == Occurrences(doc, tag, 0) && |ds| > 0
    ensures ds[0].from <= q && OccursAt(doc, tag, ds[0].from)
  {
    IndexOfLeftmost(doc, tag, 0);
    var p := IndexOf(doc, tag, 0).value;
    OccurrencesStep(doc, tag, 0, p);
    ds := Occurrences(doc, tag, 0);
  }

  /** A first group whose head starts after the second group's head is out of order once concatenated. */
  lemma OutOfOrder(first: seq<Deco>, second: seq<Deco>)
    requires |first| > 0 && |second| > 0 && first[0].from > second[0].from
    ensures !SortedByFrom(first + second)
  {
    var ds := first + second;
    assert ds[0] == first[0] && ds[|first|] == second[0];
  }

  /** The smallest such document: `<AnotherComponent /><MyComponent />`. */
  lemma GroupedNotSorted()
    ensures !SortedByFrom(Grouped("<AnotherComponent /><MyComponent />", ComponentKeys))
  {
    var my, another := ComponentKeys[0], ComponentKeys[1];
    var doc := another + my;
    assert doc == "<AnotherComponent /><MyComponent />";
    assert doc[0..|another|] == another;
    assert doc[|another|..|another| + |my|] == my;
    AnotherFirstBreaksOrder(doc, |another|);
  }

  // ---------------------------------------------------------------------
  // The corrected decoration set: the same ranges, sorted by `from`
  // ---------------------------------------------------------------------

  /** Merge two lists that are each sorted by `from`. */
  function Merge(a: seq<Deco>, b: seq<Deco>): seq<Deco>
    decreases |a| + |b|
  {
    if a == [] then b
    else if b == [] then a
    else if a[0].from <= b[0].from then [a[0]] + Merge(a[1..], b)
    else [b[0]] + Merge(a, b[1..])
  }

  /** Merging loses and invents no range. */
  lemma {:induction false} MergeMultiset(a: seq<Deco>, b: seq<Deco>)
    ensures multiset(Merge(a, b)) == multiset(a) + multiset(b)
    decreases |a| + |b|
  {
    if a == [] {
      assert multiset(a) == multiset{};
    } else if b == [] {
      assert multiset(b) == multiset{};
    } else if a[0].from <= b[0].from {
      MergeMultiset(a[1..], b);
      assert Merge(a, b) == [a[0]] + Merge(a[1..], b);
      assert a == [a[0]] + a[1..];
      assert multiset(a) == multiset([a[0]]) + multiset(a[1..]);
    } else {
      MergeMultiset(a, b[1..]);
      assert Merge(a, b) == [b[0]] + Merge(a, b[1..]);
      assert b == [b[0]] + b[1..];
      assert multiset(b) == multiset([b[0]]) + multiset(b[1..]);
    }
  }

  /** Ranges that are atomic, non-empty and end inside a text of length n. */
  predicate WellPlaced(ds: seq<Deco>, n: nat)
  {
    forall i :: 0 <= i < |ds| ==> ds[i].atomic && ds[i].from < ds[i].to <= n
  }

  /** A merge of well-placed ranges is well placed. */
  lemma {:induction false} MergeWellPlaced(a: seq<Deco>, b: seq<Deco>, n: nat)
    requires WellPlaced(a, n) && WellPlaced(b, n)
    ensures WellPlaced(Merge(a, b), n)
    decreases |a| + |b|
  {
    if a != [] && b != [] {
      if a[0].from <= b[0].from {
        MergeWellPlaced(a[1..], b, n);
        WellPlacedCons(a[0], Merge(a[1..], b), n);
      } else {
        MergeWellPlaced(a, b[1..], n);
        WellPlacedCons(b[0], Merge(a, b[1..]), n);
      }
    }
  }

  lemma WellPlacedCons(d: Deco, rest: seq<Deco>, n: nat)
    requires d.atomic && d.from < d.to <= n && WellPlaced(rest, n)
    ensures WellPlaced([d] + rest, n)
  {
    var ds := [d] + rest;
    forall i | 1 <= i < |ds| ensures ds[i] == rest[i - 1] { }
  }

  /** Every range of a merge starts no earlier than a bound both inputs respect. */
  lemma {:induction false} MergeLowerBound(a: seq<Deco>, b: seq<Deco>, m: nat)
    requires forall i :: 0 <= i < |a| ==> m <= a[i].from
    requires forall i :: 0 <= i < |b| ==> m <= b[i].from
    ensures forall i :: 0 <= i < |Merge(a, b)| ==> m <= Merge(a, b)[i].from
    decreases |a| + |b|
  {
    if a != [] && b != [] {
      if a[0].from <= b[0].from {
        MergeLowerBound(a[1..], b, m);
      } else {
        MergeLowerBound(a, b[1..], m);
      }
    }
  }

  /** Merging two lists sorted by `from` gives a list sorted by `from`. */
  lemma {:induction false} MergeSorted(a: seq<Deco>, b: seq<Deco>)
    requires SortedByFrom(a) && SortedByFrom(b)
    ensures SortedByFrom(Merge(a, b))
    decreases |a| + |b|
  {
    if a != [] && b != [] {
      if a[0].from <= b[0].from {
        MergeSorted(a[1..], b);
        MergeLowerBound(a[1..], b, a[0].from);
        SortedCons(a[0], Merge(a[1..], b));
      } else {
        MergeSorted(a, b[1..]);
        MergeLowerBound(a, b[1..], b[0].from);
        SortedCons(b[0], Merge(a, b[1..]));
      }
    }
  }

  /** A range in front of sorted ranges that start no earlier keeps them sorted. */
  lemma SortedCons(d: Deco, rest: seq<Deco>)
    requires SortedByFrom(rest)
    requires forall i :: 0 <= i < |rest| ==> d.from <= rest[i].from
    ensures SortedByFrom([d] + rest)
  {
    var ds := [d] + rest;
    forall i, j | 0 <= i < j < |ds| ensures ds[i].from <= ds[j].from {
      assert ds[j] == rest[j - 1];
      if i > 0 { assert ds[i] == rest[i - 1]; }
    }
  }

  /** The matches of both keys, merged into `from` order: what the field holds. */
  function Decorations(doc: string): seq<Deco>
  {
    Merge(Occurrences(doc, ComponentKeys[0], 0), Occurrences(doc, ComponentKeys[1], 0))
  }

  /** Ranges that do not overlap are sorted by `from`. */
  lemma OccurrencesSorted(doc: string, tag: string)
    requires |tag| > 0
    ensures SortedByFrom(Occurrences(doc, tag, 0))
  {
    var ds := Occurrences(doc, tag, 0);
    OccurrencesCover(doc, tag, 0);
    OccurrencesDisjoint(doc, tag, 0);
    forall i, j | 0 <= i < j < |ds| ensures ds[i].from <= ds[j].from {
      assert ds[i].from <= ds[i].to <= ds[j].from;
    }
  }

  /** The corrected decorations are in `from` order and are exactly the ranges of the builder's input. */
  lemma DecorationsSorted(doc: string)
    ensures SortedByFrom(Decorations(doc))
    ensures multiset(Decorations(doc)) == multiset(Grouped(doc, ComponentKeys))
  {
    var first, second := Occurrences(doc, ComponentKeys[0], 0), Occurrences(doc, ComponentKeys[1], 0);
    OccurrencesSorted(doc, ComponentKeys[0]);
    OccurrencesSorted(doc, ComponentKeys[1]);
    GroupedTwo(doc);
    MergeSorted(first, second);
    MergeMultiset(first, second);
  }

  /** Merging two lists whose concatenation is already in `from` order gives that concatenation. */
  lemma {:induction false} MergeOfSorted(a: seq<Deco>, b: seq<Deco>)
    requires SortedByFrom(a + b)
    ensures Merge(a, b) == a + b
    decreases |a|
  {
    if a == [] {
      assert a + b == b;
    } else if b == [] {
      assert a + b == a;
    } else {
      var ab := a + b;
      assert ab[0] == a[0] && ab[|a|] == b[0];
      assert (a + b)[1..] == a[1..] + b;
      SortedTail(ab);
      MergeOfSorted(a[1..], b);
      assert [a[0]] + (a[1..] + b) == a + b;
    }
  }

  /** Dropping the first range keeps a list in `from` order. */
  lemma SortedTail(ds: seq<Deco>)
    requires |ds| > 0 && SortedByFrom(ds)
    ensures SortedByFrom(ds[1..])
  {
    forall i, j | 0 <= i < j < |ds| - 1 ensures ds[1..][i].from <= ds[1..][j].from {
      assert ds[1..][i] == ds[i + 1] && ds[1..][j] == ds[j + 1];
    }
  }

  /**
   * On every document where the builder's grouped input is already in
   * `from` order (so the source's `builder.add` calls are accepted), the
   * corrected field is exactly what the source builds.
   */
  lemma DecorationsAgreeWhenSorted(doc: string)
    requires SortedByFrom(Grouped(doc, ComponentKeys))
    ensures Decorations(doc) == Grouped(doc, ComponentKeys)
  {
    GroupedTwo(doc);
    MergeOfSorted(Occurrences(doc, ComponentKeys[0], 0), Occurrences(doc, ComponentKeys[1], 0));
  }

  /** A range that covers exactly an occurrence of its own tag text. */
  predicate Exact(doc: string, d: Deco)
  {
    d.to == d.from + |d.tagText| && OccursAt(doc, d.tagText, d.from)
  }

  /** Every match of one tag text covers exactly an occurrence of it. */
  lemma OccurrencesExact(doc: string, tag: string)
    requires |tag| > 0
    ensures forall d :: d in Occurrences(doc, tag, 0) ==> Exact(doc, d)
  {
    var ds := Occurrences(doc, tag, 0);
    OccurrencesCover(doc, tag, 0);
    forall d | d in ds ensures Exact(doc, d) {
      var i :| 0 <= i < |ds| && ds[i] == d;
    }
  }

  /** Every decoration of the field covers exactly an occurrence of its tag text. */
  lemma DecorationsExact(doc: string)
    ensures forall i :: 0 <= i < |Decorations(doc)| ==> Exact(doc, Decorations(doc)[i])
  {
    var first, second := Occurrences(doc, ComponentKeys[0], 0), Occurrences(doc, ComponentKeys[1], 0);
    var ds := Decorations(doc);
    MergeMultiset(first, second);
    OccurrencesExact(doc, ComponentKeys[0]);
    OccurrencesExact(doc, ComponentKeys[1]);
    forall i | 0 <= i < |ds| ensures Exact(doc, ds[i]) {
      assert ds[i] in multiset(ds);
      assert ds[i] in multiset(first) || ds[i] in multiset(second);
    }
  }

  /**
   * Every decoration of the field is atomic, non-empty and inside the
   * document, and covers exactly an occurrence of its tag text.
   */
  lemma DecorationsInDoc(doc: string)
    ensures WellPlaced(Decorations(doc), |doc|)
    ensures forall i :: 0 <= i < |Decorations(doc)| ==> Exact(doc, Decorations(doc)[i])
  {
    DecorationsExact(doc);
    var first, second := Occurrences(doc, ComponentKeys[0], 0), Occurrences(doc, ComponentKeys[1], 0);
    OccurrencesCover(doc, ComponentKeys[0], 0);
    OccurrencesCover(doc, ComponentKeys[1], 0);
    MergeWellPlaced(first, second, |doc|);
  }

  // ---------------------------------------------------------------------
  // Editor state, the StateField, delete and insert
  // ---------------------------------------------------------------------

  /** The editor state the commands see: document, main selection and the field's decorations. */
  datatype EditorState = EditorState(doc: string, anchor: nat, head: nat, decorations: seq<Deco>)

  /** The field holds the decorations of the current document, and the selection lies inside it. */
  predicate Consistent(st: EditorState)
  {
    st.anchor <= |st.doc| && st.head <= |st.doc| && st.decorations == Decorations(st.doc)
  }

  /** `StateField.create`: the field starts out as the decorations of the initial document. */
  function Create(doc: string): (st: EditorState)
    ensures st.doc == doc && st.anchor == 0 && st.head == 0
    ensures st.decorations == Decorations(doc)
    ensures Consistent(st)
  {
    EditorState(doc, 0, 0, Decorations(doc))
  }

  /** `StateField.update`: recompute from the new document only when the document changed. */
  function UpdateField(deco: seq<Deco>, docChanged: bool, newDoc: string): seq<Deco>
  {
    if docChanged then Decorations(newDoc) else deco
  }

  /** The field keeps matching the document across every transaction. */
  lemma UpdateFieldKeepsConsistent(deco: seq<Deco>, oldDoc: string, docChanged: bool, newDoc: string)
    requires deco == Decorations(oldDoc)
    requires !docChanged ==> newDoc == oldDoc
    ensures UpdateField(deco, docChanged, newDoc) == Decorations(newDoc)
    ensures !docChanged ==> UpdateField(deco, docChanged, newDoc) == deco
  {
  }

  /** `deco.between(pos - 1, pos, ...)` reports a range that touches `[pos - 1, pos]`. */
  predicate Touches(d: Deco, pos: nat)
  {
    d.from <= pos && pos <= d.to + 1
  }

  /** The last decoration reported by `between` that is atomic: the one `found` ends up holding. */
  function LastTouching(ds: seq<Deco>, pos: nat): (found: Option<nat>)
    ensures found.Some? ==>
      && found.value < |ds| && ds[found.value].atomic && Touches(ds[found.value], pos)
      && forall j :: found.value < j < |ds| ==> !(ds[j].atomic && Touches(ds[j], pos))
    ensures found.None? ==> forall j :: 0 <= j < |ds| ==> !(ds[j].atomic && Touches(ds[j], pos))
    decreases |ds|
  {
    if ds == [] then None
    else if ds[|ds| - 1].atomic && Touches(ds[|ds| - 1], pos) then Some(|ds| - 1)
    else LastTouching(ds[..|ds| - 1], pos)
  }

  predicate InDoc(ds: seq<Deco>, n: nat)
  {
    forall i :: 0 <= i < |ds| ==> ds[i].from <= ds[i].to <= n
  }

  function MinNat(a: nat, b: nat): nat { if a <= b then a else b }

  /**
   * `deleteAtomicWidget`: with an empty selection and an atomic decoration
   * touching the character before the cursor, remove that decoration's text
   * (the last such one wins), put the cursor where it started and report
   * `true`; otherwise report `false` and change nothing.
   */
  function DeleteAtomicWidget(st: EditorState): (r: (bool, EditorState))
    requires st.anchor <= |st.doc| && st.head <= |st.doc| && InDoc(st.decorations, |st.doc|)
    ensures r.0 <==> st.anchor == st.head && exists j :: 0 <= j < |st.decorations| && st.decorations[j].atomic && Touches(st.decorations[j], st.head)
    ensures !r.0 ==> r.1 == st
    ensures r.0 ==>
      var d := st.decorations[LastTouching(st.decorations, st.head).value];
      && r.1.doc == st.doc[..d.from] + st.doc[d.to..]
      && |r.1.doc| == |st.doc| - (d.to - d.from)
      && r.1.anchor == d.from && r.1.head == d.from
      && r.1.decorations == UpdateField(st.decorations, d.from < d.to, r.1.doc)
  {
    var selFrom := MinNat(st.anchor, st.head);
    if st.anchor != st.head then (false, st)
    else match LastTouching(st.decorations, selFrom)
      case None => (false, st)
      case Some(i) =>
        var found := st.decorations[i];
        var doc := st.doc[..found.from] + st.doc[found.to..];
        (true, EditorState(doc, found.from, found.from, UpdateField(st.decorations, found.from < found.to, doc)))
  }

  /** Deleting a widget keeps the field matching the document. */
  lemma DeleteAtomicWidgetKeepsConsistent(st: EditorState)
    requires Consistent(st)
    ensures InDoc(st.decorations, |st.doc|)
    ensures Consistent(DeleteAtomicWidget(st).1)
  {
    DecorationsInDoc(st.doc);
  }

  /** `insertTag(tagText)`: insert at the cursor's head and put the cursor after the inserted text. */
  function InsertTag(st: EditorState, tagText: string): (r: EditorState)
    requires st.head <= |st.doc|
    ensures |r.doc| == |st.doc| + |tagText|
    ensures r.doc[..st.head] == st.doc[..st.head]
    ensures r.doc[st.head..st.head + |tagText|] == tagText
    ensures r.doc[st.head + |tagText|..] == st.doc[st.head..]
    ensures r.anchor == r.head == st.head + |tagText|
    ensures r.decorations == UpdateField(st.decorations, tagText != "", r.doc)
  {
    var pos := st.head;
    var doc := st.doc[..pos] + tagText + st.doc[pos..];
    EditorState(doc, pos + |tagText|, pos + |tagText|, UpdateField(st.decorations, tagText != "", doc))
  }

  /** Inserting a tag keeps the field matching the document. */
  lemma InsertTagKeepsConsistent(st: EditorState, tagText: string)
    requires Consistent(st)
    ensures Consistent(InsertTag(st, tagText))
  {
    if tagText == "" {
      assert st.doc[..st.head] + tagText + st.doc[st.head..] == st.doc;
    }
  }
}
