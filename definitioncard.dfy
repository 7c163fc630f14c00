/**
 * The definition cards of the metainfo browser
 * (gui/src/components/metaInfoBrowser/DefinitionCard.js): the rendered name
 * of a definition, whether a card can be closed, and the marking of
 * identifiers in a description as inline code.
 */
module DefinitionCard {
  import opened Wrappers
  import opened Strings

  /**
   * A metainfo definition. isSection stands for what the metainfo schema
   * says about it; ( === ) on definitions is object identity.
   */
  class Definition {
    const name: string
    const isSection: bool

    constructor (name: string, isSection: bool)
      ensures this.name == name && this.isSection == isSection
    {
      this.name := name;
      this.isSection := isSection;
    }
  }

  // ---------------------------------------------------------------------------
  // renderName

  const SectionPrefix := "section_"

  /** s starts with "section_" in any ASCII case (the /^section_/i pattern). */
  predicate HasSectionPrefix(s: string) {
    |s| >= |SectionPrefix| && Lower(s[..|SectionPrefix|]) == SectionPrefix
  }

  /** The name with one leading "section_", in any case, removed. */
  function StripSectionPrefix(s: string): (r: string)
    ensures HasSectionPrefix(s) ==> r == s[|SectionPrefix|..]
    ensures !HasSectionPrefix(s) ==> r == s
  {
    if HasSectionPrefix(s) then s[|SectionPrefix|..] else s
  }

  /** A missing element is named "<unknown>"; sections lose their prefix; every '_' becomes a space. */
  function RenderName(element: Definition?): (r: string)
    ensures NoChar(r, '_')
    ensures element == null ==> r == "<unknown>"
    ensures element != null && !element.isSection ==>
      |r| == |element.name| && forall i | 0 <= i < |r| :: r[i] == (if element.name[i] == '_' then ' ' else element.name[i])
    ensures element != null && element.isSection ==> r == MapChar(StripSectionPrefix(element.name), '_', ' ')
  {
    var name := if element != null then element.name else "<unknown>";
    var name' := if element != null && element.isSection then StripSectionPrefix(name) else name;
    MapChar(name', '_', ' ')
  }

  /**
   * The prefix goes only once and in any case: a section named p + rest,
   * with p any spelling of "section_", renders as rest with spaces for '_',
   * even when rest starts with "section_" itself.
   */
  lemma SectionPrefixOnce(d: Definition, p: string, rest: string)
    requires d.isSection && d.name == p + rest
    requires |p| == |SectionPrefix| && Lower(p) == SectionPrefix
    ensures RenderName(d) == MapChar(rest, '_', ' ')
  {
    assert d.name[..|SectionPrefix|] == p;
    assert d.name[|SectionPrefix|..] == rest;
  }

  /** A section whose name has no such prefix renders as any other name. */
  lemma SectionWithoutPrefix(d: Definition)
    requires d.isSection && !HasSectionPrefix(d.name)
    ensures RenderName(d) == MapChar(d.name, '_', ' ')
  {
  }

  // ---------------------------------------------------------------------------
  // isClosable

  /** A card is closable exactly when its definition is not the current one. */
  function IsClosable(definition: Definition, current: Definition): (r: bool)
    ensures r <==> definition != current
  {
    !(definition == current)
  }

  /**
   * Among the open cards, each definition shown once, the current definition's
   * card is the only one without a close button, and every card has one when
   * the current definition is not shown.
   */
  lemma OnlyCurrentUnclosable(cards: seq<Definition>, current: Definition)
    requires forall i, j | 0 <= i < j < |cards| :: cards[i] != cards[j]
    ensures forall i, j | 0 <= i < j < |cards| :: IsClosable(cards[i], current) || IsClosable(cards[j], current)
    ensures (exists i | 0 <= i < |cards| :: !IsClosable(cards[i], current)) <==> current in cards
  {
    if current in cards {
      var k :| 0 <= k < |cards| && cards[k] == current;
      assert !IsClosable(cards[k], current);
    }
  }

  // ---------------------------------------------------------------------------
  // renderDescription

  /** A character of [A-Za-z0-9]. */
  predicate IsWord(c: char) {
    IsAsciiAlnum(c)
  }

  /** The form ([A-Za-z0-9]+_)+[A-Za-z0-9]+: word runs joined by single underscores, at least two. */
  predicate IsIdentifier(w: string) {
    && |w| >= 3
    && IsWord(w[0]) && IsWord(w[|w| - 1])
    && '_' in w
    && (forall i | 0 <= i < |w| :: IsWord(w[i]) || w[i] == '_')
    && (forall i | 0 <= i < |w| - 1 :: !(w[i] == '_' && w[i + 1] == '_'))
  }

  /** Word runs joined by single underscores, possibly just one run: the part of a match read so far. */
  predicate IsRuns(w: string) {
    && |w| >= 1
    && IsWord(w[0]) && IsWord(w[|w| - 1])
    && (forall i | 0 <= i < |w| :: IsWord(w[i]) || w[i] == '_')
    && (forall i | 0 <= i < |w| - 1 :: !(w[i] == '_' && w[i + 1] == '_'))
  }

  /** The end of the word run that starts at e. */
  function RunEnd(s: string, e: nat): (r: nat)
    requires e <= |s|
    ensures e <= r <= |s|
    ensures forall i | e <= i < r :: IsWord(s[i])
    ensures r < |s| ==> !IsWord(s[r])
    decreases |s| - e
  {
    if e < |s| && IsWord(s[e]) then RunEnd(s, e + 1) else e
  }

  /** One more "_" and word run while they follow: the greedy repetition with its backtracking. */
  function Extend(s: string, e: nat): (r: nat)
    requires 0 < e <= |s| && IsRuns(s[..e])
    requires e < |s| ==> !IsWord(s[e])
    ensures e <= r <= |s| && IsRuns(s[..r])
    ensures r > e ==> '_' in s[..r]
    ensures !(r + 1 < |s| && s[r] == '_' && IsWord(s[r + 1]))
    ensures r < |s| ==> !IsWord(s[r])
    decreases |s| - e
  {
    if e + 1 < |s| && s[e] == '_' && IsWord(s[e + 1]) then
      var e' := RunEnd(s, e + 1);
      RunsExtend(s, e, e');
      var r := Extend(s, e');
      assert s[..r][e] == '_';
      r
    else e
  }

  /** Runs followed by "_" and a word run are runs. */
  lemma RunsExtend(s: string, e: nat, e': nat)
    requires 0 < e && e + 1 < e' <= |s| && IsRuns(s[..e]) && s[e] == '_'
    requires forall i | e + 1 <= i < e' :: IsWord(s[i])
    ensures IsRuns(s[..e'])
  {
    assert forall i | 0 <= i < e :: s[..e'][i] == s[..e][i];
  }

  /** The length of the identifier the regular expression matches at the start of s, if any. */
  function MatchLength(s: string): (r: Option<nat>)
    ensures r.Some? ==> 0 < r.value <= |s| && IsIdentifier(s[..r.value])
    ensures r.Some? ==> !(r.value + 1 < |s| && s[r.value] == '_' && IsWord(s[r.value + 1]))
    ensures r.Some? ==> r.value < |s| ==> !IsWord(s[r.value])
    ensures r.None? && s != [] && IsWord(s[0]) ==> var e := RunEnd(s, 0); !(e + 1 < |s| && s[e] == '_' && IsWord(s[e + 1]))
  {
    if s != [] && IsWord(s[0]) then
      var e := RunEnd(s, 0);
      assert forall i | 0 <= i < e :: s[..e][i] == s[i];
      var q := Extend(s, e);
      if q > e then Some(q) else None
    else None
  }

  /** A piece of a description as rendered: a character kept, or an identifier in backticks. */
  datatype Token = Plain(c: char) | Code(id: string)

  /** The left-to-right scan of the global replace. */
  function Tokens(s: string): (r: seq<Token>)
    ensures forall k | 0 <= k < |r| && r[k].Code? :: IsIdentifier(r[k].id)
    ensures s != [] ==> r != [] && (r[0].Plain? ==> r[0].c == s[0] && MatchLength(s).None?)
    decreases |s|
  {
    if s == [] then []
    else
      var m := MatchLength(s);
      if m.Some? then [Code(s[..m.value])] + Tokens(s[m.value..])
      else [Plain(s[0])] + Tokens(s[1..])
  }

  /** The text a token stands for in the original description. */
  function Text(t: Token): string {
    match t case Plain(c) => [c] case Code(id) => id
  }

  /** The text tokens stand for in the original description. */
  function Source(ts: seq<Token>): string {
    if ts == [] then [] else Text(ts[0]) + Source(ts[1..])
  }

  /** The text a token is rendered as. */
  function Rendered(ts: seq<Token>): string {
    if ts == [] then [] else (match ts[0] case Plain(c) => [c] case Code(id) => "`" + id + "`") + Rendered(ts[1..])
  }

  /** description.replace(/(([A-Za-z0-9]+_)+[A-Za-z0-9]+)/g, '`$1`'). */
  function RenderDescription(description: string): (r: string)
  {
    Rendered(Tokens(description))
  }

  /** The tokens cover the description exactly. */
  lemma {:induction false} TokensSource(s: string)
    ensures Source(Tokens(s)) == s
    decreases |s|
  {
    if s != [] {
      var m := MatchLength(s);
      var n := if m.Some? then m.value else 1;
      var t := if m.Some? then Code(s[..n]) else Plain(s[0]);
      assert Tokens(s) == [t] + Tokens(s[n..]);
      TokensSource(s[n..]);
      SourceStep(s, n, t, Tokens(s[n..]));
    }
  }

  lemma SourceStep(s: string, n: nat, t: Token, ts: seq<Token>)
    requires 0 < n <= |s| && Text(t) == s[..n] && Source(ts) == s[n..]
    ensures Source([t] + ts) == s
  {
    assert ([t] + ts)[1..] == ts;
    assert s == s[..n] + s[n..];
  }

  /** The text with its backticks dropped. */
  function DropTicks(s: string): string {
    if s == [] then [] else (if s[0] == '`' then [] else [s[0]]) + DropTicks(s[1..])
  }

  lemma {:induction false} DropTicksConcat(a: string, b: string)
    ensures DropTicks(a + b) == DropTicks(a) + DropTicks(b)
    decreases |a|
  {
    if a != [] {
      DropTicksConcat(a[1..], b);
      assert (a + b)[0] == a[0] && (a + b)[1..] == a[1..] + b;
    } else {
      assert a + b == b;
    }
  }

  lemma {:induction false} DropTicksNone(s: string)
    requires NoChar(s, '`')
    ensures DropTicks(s) == s
    decreases |s|
  {
    if s != [] {
      DropTicksNone(s[1..]);
    }
  }

  /** Dropping the marks gives back the source text of tokens that hold no backtick. */
  lemma {:induction false} RenderedSource(ts: seq<Token>)
    requires forall k | 0 <= k < |ts| :: (ts[k].Plain? ==> ts[k].c != '`') && (ts[k].Code? ==> NoChar(ts[k].id, '`'))
    ensures DropTicks(Rendered(ts)) == Source(ts)
    decreases |ts|
  {
    if ts != [] {
      RenderedSource(ts[1..]);
      match ts[0]
      case Plain(c) =>
        DropTicksConcat([c], Rendered(ts[1..]));
      case Code(id) =>
        DropTicksConcat("`" + id + "`", Rendered(ts[1..]));
        DropTicksConcat("`" + id, "`");
        DropTicksConcat("`", id);
        DropTicksNone(id);
    }
  }

  /** The marking only adds backticks: dropping them gives back a description that had none. */
  lemma RenderDescriptionRoundTrip(description: string)
    requires NoChar(description, '`')
    ensures DropTicks(RenderDescription(description)) == description
  {
    var ts := Tokens(description);
    TokensSource(description);
    forall k | 0 <= k < |ts|
      ensures (ts[k].Plain? ==> ts[k].c != '`') && (ts[k].Code? ==> NoChar(ts[k].id, '`'))
    {
      if ts[k].Code? {
        assert forall i | 0 <= i < |ts[k].id| :: IsWord(ts[k].id[i]) || ts[k].id[i] == '_';
      } else {
        TokenInSource(ts, k);
      }
    }
    RenderedSource(ts);
  }

  /** A plain token's character occurs in the source text. */
  lemma {:induction false} TokenInSource(ts: seq<Token>, k: nat)
    requires k < |ts| && ts[k].Plain?
    ensures ts[k].c in Source(ts)
    decreases |ts|
  {
    if k > 0 {
      TokenInSource(ts[1..], k - 1);
    }
  }

  predicate PlainWord(t: Token) {
    t.Plain? && IsWord(t.c)
  }

  /** No identifier survives unmarked: no word character, '_' and word character follow as plain text. */
  lemma {:induction false} NoPlainIdentifier(s: string, k: nat)
    requires k + 2 < |Tokens(s)|
    ensures !(PlainWord(Tokens(s)[k]) && Tokens(s)[k + 1] == Plain('_') && PlainWord(Tokens(s)[k + 2]))
    decreases |s|
  {
    var ts := Tokens(s);
    var m := MatchLength(s);
    if m.Some? {
      if k > 0 {
        NoPlainIdentifier(s[m.value..], k - 1);
      }
    } else if k > 0 {
      NoPlainIdentifier(s[1..], k - 1);
    } else if ts[0].Plain? && IsWord(ts[0].c) && ts[1] == Plain('_') {
      var t1 := s[1..];
      assert Tokens(t1)[0] == Plain('_');
      assert s[1] == '_';
      assert RunEnd(s, 1) == 1;
      assert RunEnd(s, 0) == 1;
      var t2 := t1[1..];
      assert MatchLength(t1).None? && Tokens(t1) == [Plain('_')] + Tokens(t2);
      assert ts[2] == Tokens(t2)[0];
      if ts[2].Plain? {
        assert ts[2].c == s[2];
      }
    }
  }
}
