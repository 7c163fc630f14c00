/**
 * The AI-toolkit tutorial page of the GUI
 * (gui/src/components/aitoolkit/AIToolkitPage.js): the tutorial filter, the
 * index of sections and of author, keyword and method lists, the tutorial
 * keys, and the panel and link toggles.
 */
module AIToolkit {
  import opened Wrappers
  import opened Strings

  // ---------------------------------------------------------------------------
  // Tutorials and the query parameters

  /** A tutorial's metadata: title, authors, and its keyword, method and section labels. */
  datatype Tutorial = Tutorial(
    title: string,
    authors: seq<string>,
    keywords: seq<string>,
    methods: seq<string>,
    sections: seq<string>)

  /** The page's query parameters (each may be absent, i.e. null). */
  datatype Query = Query(author: Option<string>, keyword: Option<string>, analyticsMethod: Option<string>, filterString: Option<string>)

  const EmptyQuery := Query(None, None, None, None)

  /** A parameter takes part in the filter when it is truthy: present and not empty. */
  predicate IsSet(p: Option<string>) {
    p.Some? && p.value != ""
  }

  /** The tutorial is enabled: each set author, keyword or method parameter is among its own. */
  function Filter(q: Query, t: Tutorial): (r: bool)
    ensures r <==> ((IsSet(q.author) ==> q.author.value in t.authors)
                 && (IsSet(q.keyword) ==> q.keyword.value in t.keywords)
                 && (IsSet(q.analyticsMethod) ==> q.analyticsMethod.value in t.methods))
  {
    if IsSet(q.author) && q.author.value !in t.authors then false
    else if IsSet(q.keyword) && q.keyword.value !in t.keywords then false
    else if IsSet(q.analyticsMethod) && q.analyticsMethod.value !in t.methods then false
    else true
  }

  /** The empty query enables every tutorial, and setting one more parameter only disables more. */
  lemma FilterNarrowing(q: Query, t: Tutorial, author: string)
    ensures Filter(EmptyQuery, t)
    ensures Filter(q.(author := Some(author)), t) ==> Filter(q.(author := None), t)
  {
  }

  // ---------------------------------------------------------------------------
  // Tutorial keys

  /** JavaScript's \w without the unicode flag: ASCII letters, digits and '_'. */
  predicate IsWordChar(c: char) {
    IsAsciiAlnum(c) || c == '_'
  }

  /**
   * What title.replace(/\W/gm, '_').toLowerCase() makes of one character. The
   * pattern has no unicode flag, so it sees UTF-16 code units: a character
   * beyond U+FFFF is two non-word units and becomes two '_'.
   */
  function KeyPiece(c: char): (r: string)
    ensures |r| == Utf16Length([c])
    ensures forall j | 0 <= j < |r| :: IsWordChar(r[j]) && !IsAsciiUpper(r[j])
  {
    if IsWordChar(c) then [LowerChar(c)] else if c as int >= 0x1_0000 then "__" else "_"
  }

  /** title.replace(/\W/gm, '_').toLowerCase(), one piece per character. */
  function TutorialKey(title: string): (r: string)
    ensures |r| == Utf16Length(title)
    ensures forall j | 0 <= j < |r| :: IsWordChar(r[j]) && !IsAsciiUpper(r[j])
    ensures (forall i | 0 <= i < |title| :: title[i] as int < 0x1_0000) ==>
      forall i | 0 <= i < |r| :: r[i] == (if IsWordChar(title[i]) then LowerChar(title[i]) else '_')
    decreases |title|
  {
    if title == [] then [] else KeyPiece(title[0]) + TutorialKey(title[1..])
  }

  /** A character beyond U+FFFF gives two '_', as JavaScript's code-unit matching does. */
  lemma WideCharKey()
    ensures TutorialKey(['A', 0x1_F600 as char]) == "a__"
  {
    assert ['A', 0x1_F600 as char][1..] == [0x1_F600 as char];
  }

  /** A key holds only lower-case word characters, and is its own key. */
  lemma KeyIsKey(title: string)
    ensures forall i | 0 <= i < |TutorialKey(title)| :: IsWordChar(TutorialKey(title)[i]) && !IsAsciiUpper(TutorialKey(title)[i])
    ensures TutorialKey(TutorialKey(title)) == TutorialKey(title)
  {
  }

  // ---------------------------------------------------------------------------
  // The index: sections and the value lists

  /** A tutorial as listed in a section, with the key it was given. */
  datatype Listed = Listed(tutorial: Tutorial, key: string)

  datatype Section = Section(title: string, tutorials: seq<Listed>)

  function Title(s: Section): string { s.title }

  /** The titles of the sections, in order. */
  function Titles(secs: seq<Section>): (r: seq<string>)
    ensures |r| == |secs| && forall i | 0 <= i < |secs| :: r[i] == secs[i].title
  {
    seq(|secs|, i requires 0 <= i < |secs| => secs[i].title)
  }

  /** Each string occurs once. */
  ghost predicate Unique(s: seq<string>) {
    forall x | x in s :: multiset(s)[x] == 1
  }

  /** In a sequence of unique strings, different positions hold different strings. */
  lemma UniqueDistinct(s: seq<string>, i: nat, j: nat)
    requires Unique(s) && i < j < |s|
    ensures s[i] != s[j]
  {
    var x := s[j];
    assert s == s[..j] + s[j..];
    assert multiset(s) == multiset(s[..j]) + multiset(s[j..]);
    assert x in multiset(s[j..]) by { assert s[j..][0] == x; }
    assert x in s;
    assert multiset(s[..j])[x] == 0;
    assert s[..j][i] == s[i];
  }

  lemma UniquePermutation(a: seq<string>, b: seq<string>)
    requires multiset(a) == multiset(b) && Unique(a)
    ensures Unique(b)
  {
    forall x | x in b
      ensures multiset(b)[x] == 1
    {
      assert x in multiset(b);
    }
  }

  /** How often s occurs in xs. */
  function Count(xs: seq<string>, s: string): nat
    decreases |xs|
  {
    if xs == [] then 0 else Count(xs[..|xs| - 1], s) + (if xs[|xs| - 1] == s then 1 else 0)
  }

  function Copies(l: Listed, n: nat): (r: seq<Listed>)
    ensures |r| == n && forall i | 0 <= i < n :: r[i] == l
  {
    seq(n, i => l)
  }

  /** A tutorial with its key. */
  function ListedAs(t: Tutorial): Listed {
    Listed(t, TutorialKey(t.title))
  }

  /**
   * What the section titled s lists: every tutorial, in order, once for each
   * time it names s among its sections.
   */
  function Members(ts: seq<Tutorial>, s: string): seq<Listed>
    decreases |ts|
  {
    if ts == [] then []
    else
      var t := ts[|ts| - 1];
      Members(ts[..|ts| - 1], s) + Copies(ListedAs(t), Count(t.sections, s))
  }

  /** Every section title some tutorial names. */
  function SectionsOf(ts: seq<Tutorial>): set<string>
    decreases |ts|
  {
    if ts == [] then {}
    else
      var last := ts[|ts| - 1].sections;
      SectionsOf(ts[..|ts| - 1]) + set s | s in last
  }

  /** The labels collected from the tutorials; a tutorial naming no section adds none. */
  function LabelsOf(ts: seq<Tutorial>, labels: Tutorial -> seq<string>): set<string>
    decreases |ts|
  {
    if ts == [] then {}
    else
      var t := ts[|ts| - 1];
      LabelsOf(ts[..|ts| - 1], labels) + (if t.sections != [] then set a | a in labels(t) else {})
  }

  function Authors(t: Tutorial): seq<string> { t.authors }
  function Keywords(t: Tutorial): seq<string> { t.keywords }
  function Methods(t: Tutorial): seq<string> { t.methods }

  /** Some section has title s. */
  predicate HasTitle(secs: seq<Section>, s: string) {
    exists i | 0 <= i < |secs| :: secs[i].title == s
  }

  /** The dictionary of sections built from ts: one per title named, listing its members. */
  ghost predicate SectionsInv(ts: seq<Tutorial>, secs: seq<Section>) {
    && Unique(Titles(secs))
    && (forall i | 0 <= i < |secs| :: secs[i].tutorials == Members(ts, secs[i].title))
    && (forall s :: HasTitle(secs, s) <==> s in SectionsOf(ts))
  }

  /** A value dictionary built from ts: its keys, once each. */
  ghost predicate LabelsInv(ts: seq<Tutorial>, ks: seq<string>, labels: Tutorial -> seq<string>) {
    Unique(ks) && forall a :: a in ks <==> a in LabelsOf(ts, labels)
  }

  /** The index of the section titled s, if there is one (the dictionary lookup). */
  function FindTitle(secs: seq<Section>, s: string): (r: Option<nat>)
    ensures r.Some? ==> r.value < |secs| && secs[r.value].title == s
    ensures r.None? ==> !HasTitle(secs, s)
    decreases |secs|
  {
    if secs == [] then None
    else if secs[|secs| - 1].title == s then Some(|secs| - 1)
    else
      var r := FindTitle(secs[..|secs| - 1], s);
      if r.Some? then r else None
  }

  /** `forEach(i => dict[i] = i)`: the keys of xs not yet in ks are added, in order. */
  method AddKeys(ks: seq<string>, xs: seq<string>) returns (r: seq<string>)
    ensures |ks| <= |r| && r[..|ks|] == ks
    ensures forall a :: a in r <==> a in ks || a in xs
    ensures Unique(ks) ==> Unique(r)
  {
    r := ks;
    var i := 0;
    while i < |xs|
      invariant 0 <= i <= |xs|
      invariant |ks| <= |r| && r[..|ks|] == ks
      invariant forall a :: a in r <==> a in ks || a in xs[..i]
      invariant Unique(ks) ==> Unique(r)
    {
      if xs[i] !in r {
        assert multiset(r + [xs[i]]) == multiset(r) + multiset{xs[i]};
        r := r + [xs[i]];
      }
      assert xs[..i + 1] == xs[..i] + [xs[i]];
      i := i + 1;
    }
    assert xs[..i] == xs;
  }

  /** A key not yet present keeps the keys unique when appended. */
  lemma UniqueSnoc(ks: seq<string>, x: string)
    requires Unique(ks) && x !in ks
    ensures Unique(ks + [x])
  {
    assert multiset(ks + [x]) == multiset(ks) + multiset{x};
  }

  lemma CountSnoc(xs: seq<string>, x: string, s: string)
    ensures Count(xs + [x], s) == Count(xs, s) + (if x == s then 1 else 0)
  {
    assert (xs + [x])[..|xs|] == xs;
  }

  lemma {:induction false} CountAbsent(xs: seq<string>, s: string)
    ensures Count(xs, s) > 0 <==> s in xs
    decreases |xs|
  {
    if xs != [] {
      CountAbsent(xs[..|xs| - 1], s);
      assert xs == xs[..|xs| - 1] + [xs[|xs| - 1]];
    }
  }

  /**
   * The section titled s lists exactly the tutorials that name s, each with
   * its key, and lists something exactly when some tutorial names s.
   */
  lemma {:induction false} MembersOf(ts: seq<Tutorial>, s: string)
    ensures Members(ts, s) != [] <==> s in SectionsOf(ts)
    ensures forall l | l in Members(ts, s) :: exists k | 0 <= k < |ts| :: l == ListedAs(ts[k]) && s in ts[k].sections
    decreases |ts|
  {
    if ts != [] {
      var init, t := ts[..|ts| - 1], ts[|ts| - 1];
      MembersOf(init, s);
      CountAbsent(t.sections, s);
      forall l | l in Members(ts, s)
        ensures exists k | 0 <= k < |ts| :: l == ListedAs(ts[k]) && s in ts[k].sections
      {
        if l in Members(init, s) {
          var k :| 0 <= k < |init| && l == ListedAs(init[k]) && s in init[k].sections;
          assert ts[k] == init[k];
        } else {
          assert l in Copies(ListedAs(t), Count(t.sections, s));
          assert ts[|ts| - 1] == t;
        }
      }
    }
  }

  /** A tutorial naming s is listed, with its key, in the section titled s. */
  lemma {:induction false} NamedIsMember(ts: seq<Tutorial>, k: nat, s: string)
    requires k < |ts| && s in ts[k].sections
    ensures ListedAs(ts[k]) in Members(ts, s)
    decreases |ts|
  {
    var init, t := ts[..|ts| - 1], ts[|ts| - 1];
    if k < |ts| - 1 {
      assert init[k] == ts[k];
      NamedIsMember(init, k, s);
    } else {
      CountAbsent(t.sections, s);
      assert Copies(ListedAs(t), Count(t.sections, s))[0] == ListedAs(ts[k]);
    }
  }

  /** r is secs with l added to the section titled s, a new one at the end when there was none. */
  ghost predicate SectionAdded(secs: seq<Section>, s: string, l: Listed, r: seq<Section>) {
    && Unique(Titles(r))
    && (forall x :: HasTitle(r, x) <==> HasTitle(secs, x) || x == s)
    && |secs| <= |r| <= |secs| + 1
    && (|r| == |secs| + 1 ==> r[|secs|].title == s && !HasTitle(secs, s))
    && (forall i | 0 <= i < |secs| :: r[i].title == secs[i].title)
    && (forall i | 0 <= i < |r| :: r[i].tutorials == (if i < |secs| then secs[i].tutorials else []) + (if r[i].title == s then [l] else []))
  }

  /**
   * `sections[s] = sections[s] || {title: s, tutorials: []}` followed by the
   * push of l: a new section at the end when none is titled s, else one more
   * entry in that section; no other section changes.
   */
  method AddToSection(secs: seq<Section>, s: string, l: Listed) returns (r: seq<Section>)
    requires Unique(Titles(secs))
    ensures SectionAdded(secs, s, l, r)
  {
    var k := FindTitle(secs, s);
    if k.Some? {
      r := secs[k.value := Section(s, secs[k.value].tutorials + [l])];
      OnlyTitled(secs, k.value);
      SameTitles(secs, r);
    } else {
      r := secs + [Section(s, [l])];
      AppendedTitle(secs, s, l);
    }
  }

  /** With unique titles, the section at k is the only one with its title. */
  lemma OnlyTitled(secs: seq<Section>, k: nat)
    requires Unique(Titles(secs)) && k < |secs|
    ensures forall i | 0 <= i < |secs| && i != k :: secs[i].title != secs[k].title
  {
    forall i | 0 <= i < |secs| && i != k
      ensures secs[i].title != secs[k].title
    {
      if i < k {
        UniqueDistinct(Titles(secs), i, k);
      } else {
        UniqueDistinct(Titles(secs), k, i);
      }
    }
  }

  /** Sections with the same titles position by position have the same keys. */
  lemma SameTitles(a: seq<Section>, b: seq<Section>)
    requires |a| == |b| && forall i | 0 <= i < |a| :: a[i].title == b[i].title
    ensures Titles(a) == Titles(b)
    ensures forall x :: HasTitle(a, x) <==> HasTitle(b, x)
  {
  }

  /** A section with a new title appended keeps the titles unique. */
  lemma AppendedTitle(secs: seq<Section>, s: string, l: Listed)
    requires Unique(Titles(secs)) && !HasTitle(secs, s)
    ensures Unique(Titles(secs + [Section(s, [l])]))
    ensures forall x :: HasTitle(secs + [Section(s, [l])], x) <==> HasTitle(secs, x) || x == s
  {
    var r := secs + [Section(s, [l])];
    assert Titles(r) == Titles(secs) + [s];
    UniqueSnoc(Titles(secs), s);
    assert r[|secs|].title == s;
    forall x | HasTitle(secs, x)
      ensures HasTitle(r, x)
    {
      var i :| 0 <= i < |secs| && secs[i].title == x;
      assert r[i].title == x;
    }
  }

  /** The section dictionary after the tutorials ts0 and the first sections ls of t. */
  ghost predicate PartialInv(ts0: seq<Tutorial>, t: Tutorial, ls: seq<string>, secs: seq<Section>) {
    && Unique(Titles(secs))
    && (forall i | 0 <= i < |secs| :: secs[i].tutorials == Members(ts0, secs[i].title) + Copies(ListedAs(t), Count(ls, secs[i].title)))
    && (forall s :: HasTitle(secs, s) <==> s in SectionsOf(ts0) || s in ls)
  }

  /** Adding t under its next section title s keeps the partial dictionary. */
  lemma PartialStep(ts0: seq<Tutorial>, t: Tutorial, ls: seq<string>, s: string, prev: seq<Section>, r: seq<Section>)
    requires PartialInv(ts0, t, ls, prev) && SectionAdded(prev, s, ListedAs(t), r)
    ensures PartialInv(ts0, t, ls + [s], r)
  {
    var l := ListedAs(t);
    forall i | 0 <= i < |r|
      ensures r[i].tutorials == Members(ts0, r[i].title) + Copies(l, Count(ls + [s], r[i].title))
    {
      if i < |prev| {
        assert prev[i].title == r[i].title;
        OldSectionStep(Members(ts0, r[i].title), l, ls, s, r[i].title, prev[i].tutorials, r[i].tutorials);
      } else {
        NewSectionStep(ts0, l, ls, s, r[i].tutorials);
      }
    }
  }

  /** A section that was there gets l once more exactly when its title is s. */
  lemma OldSectionStep(m: seq<Listed>, l: Listed, ls: seq<string>, s: string, x: string, before: seq<Listed>, after: seq<Listed>)
    requires before == m + Copies(l, Count(ls, x)) && after == before + (if x == s then [l] else [])
    ensures after == m + Copies(l, Count(ls + [s], x))
  {
    CountSnoc(ls, s, x);
    if x == s {
      assert Copies(l, Count(ls, x)) + [l] == Copies(l, Count(ls, x) + 1);
    }
  }

  /** A section new under s holds l alone. */
  lemma NewSectionStep(ts0: seq<Tutorial>, l: Listed, ls: seq<string>, s: string, after: seq<Listed>)
    requires s !in SectionsOf(ts0) && s !in ls && after == [] + [l]
    ensures after == Members(ts0, s) + Copies(l, Count(ls + [s], s))
  {
    MembersOf(ts0, s);
    CountAbsent(ls, s);
    CountSnoc(ls, s, s);
  }

  /**
   * The reducer's body for one tutorial: for each of its section titles, the
   * tutorial is pushed into that section and its authors, keywords and
   * methods are collected.
   */
  method AddTutorial(ghost ts0: seq<Tutorial>, t: Tutorial, secs: seq<Section>, au: seq<string>, kw: seq<string>, me: seq<string>)
    returns (secs': seq<Section>, au': seq<string>, kw': seq<string>, me': seq<string>)
    requires SectionsInv(ts0, secs)
    requires LabelsInv(ts0, au, Authors) && LabelsInv(ts0, kw, Keywords) && LabelsInv(ts0, me, Methods)
    ensures SectionsInv(ts0 + [t], secs')
    ensures LabelsInv(ts0 + [t], au', Authors) && LabelsInv(ts0 + [t], kw', Keywords) && LabelsInv(ts0 + [t], me', Methods)
  {
    var l := ListedAs(t);
    secs', au', kw', me' := secs, au, kw, me;
    var j := 0;
    while j < |t.sections|
      invariant 0 <= j <= |t.sections|
      invariant PartialInv(ts0, t, t.sections[..j], secs')
      invariant Unique(au') && forall a :: a in au' <==> a in LabelsOf(ts0, Authors) || (j > 0 && a in t.authors)
      invariant Unique(kw') && forall a :: a in kw' <==> a in LabelsOf(ts0, Keywords) || (j > 0 && a in t.keywords)
      invariant Unique(me') && forall a :: a in me' <==> a in LabelsOf(ts0, Methods) || (j > 0 && a in t.methods)
    {
      var s := t.sections[j];
      ghost var ls := t.sections[..j];
      assert t.sections[..j + 1] == ls + [s];
      ghost var prev := secs';
      secs' := AddToSection(secs', s, l);
      PartialStep(ts0, t, ls, s, prev, secs');
      au' := AddKeys(au', t.authors);
      kw' := AddKeys(kw', t.keywords);
      me' := AddKeys(me', t.methods);
      j := j + 1;
    }
    assert t.sections[..j] == t.sections;
    assert (ts0 + [t])[..|ts0|] == ts0;
    forall i | 0 <= i < |secs'|
      ensures secs'[i].tutorials == Members(ts0 + [t], secs'[i].title)
    {
    }
  }

  lemma TitlesKeyed(secs: seq<Section>)
    ensures Titles(secs) == Keyed(secs, Title)
  {
  }

  /** Sorting the sections by title keeps what the dictionary says. */
  lemma SortedSections(ts: seq<Tutorial>, secs: seq<Section>)
    requires SectionsInv(ts, secs)
    ensures SectionsInv(ts, SortBy(secs, Title)) && SortedBy(SortBy(secs, Title), Title)
  {
    var r := SortBy(secs, Title);
    SortBySorted(secs, Title);
    SortByKeyed(secs, Title);
    TitlesKeyed(secs);
    TitlesKeyed(r);
    UniquePermutation(Titles(secs), Titles(r));
    forall i | 0 <= i < |r|
      ensures r[i].tutorials == Members(ts, r[i].title)
    {
      assert r[i] in multiset(secs);
    }
    forall s
      ensures HasTitle(r, s) <==> HasTitle(secs, s)
    {
      if HasTitle(r, s) {
        var i :| 0 <= i < |r| && r[i].title == s;
        assert r[i] in multiset(secs);
      }
      if HasTitle(secs, s) {
        var i :| 0 <= i < |secs| && secs[i].title == s;
        assert secs[i] in multiset(r);
      }
    }
  }

  /** Sorting a value list keeps its keys and their uniqueness, and orders them. */
  lemma SortedLabels(ts: seq<Tutorial>, ks: seq<string>, labels: Tutorial -> seq<string>)
    requires LabelsInv(ts, ks, labels)
    ensures LabelsInv(ts, SortStrings(ks), labels)
  {
    var r := SortStrings(ks);
    UniquePermutation(ks, r);
    forall a
      ensures a in r <==> a in ks
    {
      assert a in r <==> a in multiset(r);
    }
  }

  /**
   * The page's index of the tutorials: the sections, sorted by title with one
   * section per title named, each listing the tutorials that name it; and
   * the authors, keywords and methods of the tutorials that name a section,
   * sorted and without repetition.
   */
  method Index(tutorials: seq<Tutorial>) returns (sections: seq<Section>, authors: seq<string>, keywords: seq<string>, methods: seq<string>)
    ensures SortedBy(sections, Title) && SectionsInv(tutorials, sections)
    ensures (forall i, j | 0 <= i < j < |authors| :: LessEq(authors[i], authors[j])) && LabelsInv(tutorials, authors, Authors)
    ensures (forall i, j | 0 <= i < j < |keywords| :: LessEq(keywords[i], keywords[j])) && LabelsInv(tutorials, keywords, Keywords)
    ensures (forall i, j | 0 <= i < j < |methods| :: LessEq(methods[i], methods[j])) && LabelsInv(tutorials, methods, Methods)
  {
    var secs: seq<Section> := [];
    var au: seq<string> := [];
    var kw: seq<string> := [];
    var me: seq<string> := [];
    var k := 0;
    while k < |tutorials|
      invariant 0 <= k <= |tutorials|
      invariant SectionsInv(tutorials[..k], secs)
      invariant LabelsInv(tutorials[..k], au, Authors) && LabelsInv(tutorials[..k], kw, Keywords) && LabelsInv(tutorials[..k], me, Methods)
    {
      assert tutorials[..k + 1] == tutorials[..k] + [tutorials[k]];
      secs, au, kw, me := AddTutorial(tutorials[..k], tutorials[k], secs, au, kw, me);
      k := k + 1;
    }
    assert tutorials[..k] == tutorials;
    SortedSections(tutorials, secs);
    SortedLabels(tutorials, au, Authors);
    SortedLabels(tutorials, kw, Keywords);
    SortedLabels(tutorials, me, Methods);
    sections := SortBy(secs, Title);
    authors := SortStrings(au);
    keywords := SortStrings(kw);
    methods := SortStrings(me);
  }

  // ---------------------------------------------------------------------------
  // The toggles

  /** A panel's onChange: the panel with this key is collapsed when expanded, else expanded alone. */
  function ExpandToggle(expanded: Option<string>, key: string): (r: Option<string>)
    ensures r == Some(key) <==> expanded != Some(key)
    ensures r.None? || r == Some(key)
  {
    if expanded == Some(key) then None else Some(key)
  }

  /** Two clicks on a panel give back the state when no other panel was expanded. */
  lemma ExpandTwice(expanded: Option<string>, key: string)
    requires expanded.None? || expanded == Some(key)
    ensures ExpandToggle(ExpandToggle(expanded, key), key) == expanded
  {
  }

  /** Which of the three value parameters a link or a selection sets. */
  datatype Param = AuthorParam | KeywordParam | MethodParam

  function Get(q: Query, p: Param): Option<string> {
    match p
    case AuthorParam => q.author
    case KeywordParam => q.keyword
    case MethodParam => q.analyticsMethod
  }

  function LabelsFor(t: Tutorial, p: Param): seq<string> {
    match p
    case AuthorParam => t.authors
    case KeywordParam => t.keywords
    case MethodParam => t.methods
  }

  /** `setQueryParameters({...emptyQuery, p: value})`: every other parameter is cleared. */
  function Selected(p: Param, value: Option<string>): (r: Query)
    ensures Get(r, p) == value && r.filterString.None?
    ensures forall p' | p' != p :: Get(r, p').None?
  {
    match p
    case AuthorParam => EmptyQuery.(author := value)
    case KeywordParam => EmptyQuery.(keyword := value)
    case MethodParam => EmptyQuery.(analyticsMethod := value)
  }

  /** A click on an author, keyword or method link: that value is selected alone, or cleared when it was selected. */
  function LinkClick(q: Query, p: Param, value: string): (r: Query)
    ensures Get(r, p) == (if Get(q, p) == Some(value) then None else Some(value))
    ensures forall p' | p' != p :: Get(r, p').None?
    ensures r.filterString.None?
  {
    Selected(p, if Get(q, p) == Some(value) then None else Some(value))
  }

  /** The filter is the conjunction over the three parameters. */
  lemma FilterParams(q: Query, t: Tutorial)
    ensures Filter(q, t) <==> forall p: Param :: IsSet(Get(q, p)) ==> Get(q, p).value in LabelsFor(t, p)
  {
    if !Filter(q, t) {
      var p :| IsSet(Get(q, p)) && Get(q, p).value !in LabelsFor(t, p) by {
        if IsSet(q.author) && q.author.value !in t.authors {
          assert IsSet(Get(q, AuthorParam)) && Get(q, AuthorParam).value !in LabelsFor(t, AuthorParam);
        } else if IsSet(q.keyword) && q.keyword.value !in t.keywords {
          assert IsSet(Get(q, KeywordParam)) && Get(q, KeywordParam).value !in LabelsFor(t, KeywordParam);
        } else {
          assert IsSet(Get(q, MethodParam)) && Get(q, MethodParam).value !in LabelsFor(t, MethodParam);
        }
      }
    }
  }

  /** Clicking a link shown on a tutorial never disables that tutorial. */
  lemma LinkKeepsTutorial(q: Query, p: Param, t: Tutorial, value: string)
    requires value in LabelsFor(t, p)
    ensures Filter(LinkClick(q, p, value), t)
  {
    var r := LinkClick(q, p, value);
    FilterParams(r, t);
  }

  /** A second click on the same link clears every parameter, unless the first one cleared it. */
  lemma LinkTwice(q: Query, p: Param, value: string)
    ensures Get(q, p) != Some(value) ==> LinkClick(LinkClick(q, p, value), p, value) == EmptyQuery
    ensures Get(q, p) == Some(value) ==> LinkClick(LinkClick(q, p, value), p, value) == Selected(p, Some(value))
  {
  }
}
