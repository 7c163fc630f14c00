/**
 * The system normaliser's own logic: atom-label normalisation against the table of
 * chemical symbols, the percentage formula of a structure, the label-to-number lookup,
 * the system type from a classification, the early exits of normalize_system and the
 * prototype label.
 */
module SystemNormalizer {
  import opened Wrappers
  import opened Strings
  import opened Numbers
  import Resources

  // ---------------------------------------------------------------------------
  // ase.data.chemical_symbols

  /** Placeholder and period 1. */
  const Period1: seq<string> := [
    "X", "H", "He"
  ]

  /** Period 2. */
  const Period2: seq<string> := [
    "Li", "Be", "B", "C", "N", "O", "F", "Ne"
  ]

  /** Period 3. */
  const Period3: seq<string> := [
    "Na", "Mg", "Al", "Si", "P", "S", "Cl", "Ar"
  ]

  /** Period 4. */
  const Period4: seq<string> := [
    "K", "Ca", "Sc", "Ti", "V", "Cr", "Mn", "Fe", "Co", "Ni", "Cu", "Zn", "Ga", "Ge", "As", "Se",
    "Br", "Kr"
  ]

  /** Period 5. */
  const Period5: seq<string> := [
    "Rb", "Sr", "Y", "Zr", "Nb", "Mo", "Tc", "Ru", "Rh", "Pd", "Ag", "Cd", "In", "Sn", "Sb", "Te",
    "I", "Xe"
  ]

  /** Period 6, with the lanthanides. */
  const Period6: seq<string> := [
    "Cs", "Ba", "La", "Ce", "Pr", "Nd", "Pm", "Sm", "Eu", "Gd", "Tb", "Dy", "Ho", "Er", "Tm", "Yb",
    "Lu", "Hf", "Ta", "W", "Re", "Os", "Ir", "Pt", "Au", "Hg", "Tl", "Pb", "Bi", "Po", "At", "Rn"
  ]

  /** Period 7, with the actinides. */
  const Period7: seq<string> := [
    "Fr", "Ra", "Ac", "Th", "Pa", "U", "Np", "Pu", "Am", "Cm", "Bk", "Cf", "Es", "Fm", "Md", "No",
    "Lr", "Rf", "Db", "Sg", "Bh", "Hs", "Mt", "Ds", "Rg", "Cn", "Nh", "Fl", "Mc", "Lv", "Ts", "Og"
  ]

  /** The placeholder 'X' for unknown elements, then the elements by atomic number. */
  const ChemicalSymbols: seq<string> := Period1 + Period2 + Period3 + Period4 + Period5 + Period6 + Period7

  /** Every entry is a symbol: an upper-case letter, then at most one lower-case letter. */
  lemma ChemicalSymbolsShape()
    ensures |ChemicalSymbols| == 119 && ChemicalSymbols[0] == "X" && ChemicalSymbols[35] == "Br"
    ensures forall i | 0 <= i < |ChemicalSymbols| :: Resources.IsSymbol(ChemicalSymbols[i])
  {
    Period1Symbols();
    Period2Symbols();
    Period3Symbols();
    Period4Symbols();
    Period5Symbols();
    Period6Symbols();
    Period7Symbols();
    var p := Period1 + Period2;
    SymbolsConcat(Period1, Period2);
    SymbolsConcat(p, Period3);
    p := p + Period3;
    SymbolsConcat(p, Period4);
    p := p + Period4;
    SymbolsConcat(p, Period5);
    p := p + Period5;
    SymbolsConcat(p, Period6);
    p := p + Period6;
    SymbolsConcat(p, Period7);
    assert ChemicalSymbols[35] == Period4[16];
  }

  predicate AllSymbols(ss: seq<string>) {
    forall i | 0 <= i < |ss| :: Resources.IsSymbol(ss[i])
  }

  lemma SymbolsConcat(a: seq<string>, b: seq<string>)
    requires AllSymbols(a) && AllSymbols(b)
    ensures AllSymbols(a + b)
  {
    forall i | 0 <= i < |a + b| ensures Resources.IsSymbol((a + b)[i]) {
      if i >= |a| {
        assert (a + b)[i] == b[i - |a|];
      }
    }
  }

  lemma Period1Symbols()
    ensures AllSymbols(Period1)
  {
  }

  lemma Period2Symbols()
    ensures AllSymbols(Period2)
  {
  }

  lemma Period3Symbols()
    ensures AllSymbols(Period3)
  {
  }

  lemma Period4Symbols()
    ensures AllSymbols(Period4)
  {
  }

  lemma Period5Symbols()
    ensures AllSymbols(Period5)
  {
  }

  lemma Period6Symbols()
    ensures AllSymbols(Period6)
  {
  }

  lemma Period7Symbols()
    ensures AllSymbols(Period7)
  {
  }

  /** list.index: the first position of s. */
  function IndexOf(ss: seq<string>, s: string): (r: nat)
    requires s in ss
    ensures r < |ss| && ss[r] == s && forall j | 0 <= j < r :: ss[j] != s
  {
    if ss[0] == s then 0 else 1 + IndexOf(ss[1..], s)
  }

  // ---------------------------------------------------------------------------
  // atom_label_re and normalized_atom_labels

  /** The entries of ss that have n characters, in their order in ss. */
  function OfLength(ss: seq<string>, n: nat): seq<string>
  {
    if ss == [] then []
    else
      var last := ss[|ss| - 1];
      OfLength(ss[..|ss| - 1], n) + (if |last| == n then [last] else [])
  }

  /**
   * The alternatives of atom_label_re over the table ts, in the order they are tried:
   * sorted by length, longest first. sorted is stable, so entries of one length keep
   * table order.
   */
  function AlternativesOf(ts: seq<string>): seq<string> {
    OfLength(ts, 2) + OfLength(ts, 1)
  }

  /** A table of symbols with the placeholder first, as ase.data.chemical_symbols is. */
  predicate SymbolTable(ts: seq<string>) {
    ts != [] && forall i | 0 <= i < |ts| :: Resources.IsSymbol(ts[i])
  }

  predicate LongestFirst(alts: seq<string>) {
    forall i, j | 0 <= i < j < |alts| :: |alts[i]| >= |alts[j]|
  }

  lemma {:induction false} OfLengthMember(ss: seq<string>, n: nat, t: string)
    ensures t in OfLength(ss, n) <==> t in ss && |t| == n
  {
    if ss != [] {
      var pre := ss[..|ss| - 1];
      OfLengthMember(pre, n, t);
      assert ss == pre + [ss[|ss| - 1]];
    }
  }

  lemma {:induction false} OfLengthSplit(ss: seq<string>)
    requires forall i | 0 <= i < |ss| :: |ss[i]| == 1 || |ss[i]| == 2
    ensures multiset(OfLength(ss, 2)) + multiset(OfLength(ss, 1)) == multiset(ss)
  {
    if ss != [] {
      var pre := ss[..|ss| - 1];
      OfLengthSplit(pre);
      assert ss == pre + [ss[|ss| - 1]];
    }
  }

  /** For entries of one or two characters, the two-character ones then the others is a sort by length. */
  lemma ByLengthSorted(ss: seq<string>)
    requires forall i | 0 <= i < |ss| :: |ss[i]| == 1 || |ss[i]| == 2
    ensures multiset(OfLength(ss, 2) + OfLength(ss, 1)) == multiset(ss)
    ensures forall t :: t in OfLength(ss, 2) + OfLength(ss, 1) <==> t in ss
    ensures LongestFirst(OfLength(ss, 2) + OfLength(ss, 1))
  {
    OfLengthSplit(ss);
    forall t ensures t in OfLength(ss, 2) + OfLength(ss, 1) <==> t in ss {
      OfLengthMember(ss, 2, t);
      OfLengthMember(ss, 1, t);
    }
    var a := OfLength(ss, 2);
    var b := OfLength(ss, 1);
    var alts := a + b;
    forall i | 0 <= i < |alts| ensures |alts[i]| == (if i < |a| then 2 else 1) {
      if i < |a| {
        assert alts[i] == a[i] && a[i] in a;
        OfLengthMember(ss, 2, a[i]);
      } else {
        assert alts[i] == b[i - |a|] && b[i - |a|] in b;
        OfLengthMember(ss, 1, b[i - |a|]);
      }
    }
  }

  /** The alternation is the table sorted by length, longest first. */
  lemma AlternativesSorted(ts: seq<string>)
    requires SymbolTable(ts)
    ensures multiset(AlternativesOf(ts)) == multiset(ts)
    ensures forall t :: t in AlternativesOf(ts) <==> t in ts
    ensures LongestFirst(AlternativesOf(ts))
  {
    ByLengthSorted(ts);
  }

  /** The position in alts, from k on, of the first alternative that occurs in the label at i. */
  function FirstAlternative(alts: seq<string>, atomLabel: string, i: nat, k: nat): (r: Option<nat>)
    requires k <= |alts|
    ensures r.Some? ==> (k <= r.value < |alts| && OccursAt(atomLabel, alts[r.value], i)
      && forall j | k <= j < r.value :: !OccursAt(atomLabel, alts[j], i))
    ensures r.None? ==> forall j | k <= j < |alts| :: !OccursAt(atomLabel, alts[j], i)
    decreases |alts| - k
  {
    if k == |alts| then None
    else if OccursAt(atomLabel, alts[k], i) then Some(k)
    else FirstAlternative(alts, atomLabel, i, k + 1)
  }

  /**
   * re.search over the alternation alts from position i on: the leftmost position where an
   * alternative occurs, and the first alternative that occurs there.
   */
  function SearchLabel(alts: seq<string>, atomLabel: string, i: nat): (r: Option<(nat, nat)>)
    ensures r.Some? ==> (i <= r.value.0 && r.value.1 < |alts|
      && OccursAt(atomLabel, alts[r.value.1], r.value.0)
      && (forall j | 0 <= j < r.value.1 :: !OccursAt(atomLabel, alts[j], r.value.0))
      && forall p, j | i <= p < r.value.0 && 0 <= j < |alts| :: !OccursAt(atomLabel, alts[j], p))
    ensures r.None? ==> forall p, j | i <= p && 0 <= j < |alts| :: !OccursAt(atomLabel, alts[j], p)
    decreases |atomLabel| + 1 - i
  {
    if i > |atomLabel| then None
    else match FirstAlternative(alts, atomLabel, i, 0)
      case Some(k) => Some((i, k))
      case None => SearchLabel(alts, atomLabel, i + 1)
  }

  /** The match of the alternation alts in the label, or the placeholder ts[0] without one. */
  function PickSymbol(ts: seq<string>, alts: seq<string>, atomLabel: string): string
    requires ts != []
  {
    match SearchLabel(alts, atomLabel, 0)
    case None => ts[0]
    case Some((_, k)) => alts[k]
  }

  /** The symbol a label stands for: the match of atom_label_re over ts, or ts[0] without one. */
  function NormalizedLabel(ts: seq<string>, atomLabel: string): string
    requires ts != []
  {
    PickSymbol(ts, AlternativesOf(ts), atomLabel)
  }

  /** normalized_atom_labels: each label replaced by the symbol it stands for. */
  function NormalizedAtomLabels(labels: seq<string>): seq<string>
  {
    ChemicalSymbolsShape();
    seq(|labels|, i requires 0 <= i < |labels| => NormalizedLabel(ChemicalSymbols, labels[i]))
  }

  /** What searching a label for the entries of ts, tried longest first, gives. */
  lemma PickSymbolSpec(ts: seq<string>, alts: seq<string>, atomLabel: string)
    requires ts != [] && LongestFirst(alts) && forall t :: t in alts <==> t in ts
    ensures PickSymbol(ts, alts, atomLabel) in ts
    ensures (forall p: nat, t | t in ts :: !OccursAt(atomLabel, t, p)) ==> PickSymbol(ts, alts, atomLabel) == ts[0]
    ensures (exists p: nat, t | t in ts :: OccursAt(atomLabel, t, p)) ==>
      exists p: nat :: OccursAt(atomLabel, PickSymbol(ts, alts, atomLabel), p)
        && (forall q: nat, t | q < p && t in ts :: !OccursAt(atomLabel, t, q))
        && forall t | t in ts && OccursAt(atomLabel, t, p) :: |t| <= |PickSymbol(ts, alts, atomLabel)|
  {
    match SearchLabel(alts, atomLabel, 0)
    case None =>
      forall p: nat, t | t in ts ensures !OccursAt(atomLabel, t, p) {
        assert t in alts;
        var j :| 0 <= j < |alts| && alts[j] == t;
      }
    case Some((p, k)) =>
      var r := alts[k];
      assert r in alts;
      forall q: nat, t | q < p && t in ts ensures !OccursAt(atomLabel, t, q) {
        assert t in alts;
        var j :| 0 <= j < |alts| && alts[j] == t;
      }
      forall t | t in ts && OccursAt(atomLabel, t, p) ensures |t| <= |r| {
        assert t in alts;
        var j :| 0 <= j < |alts| && alts[j] == t;
      }
  }

  /**
   * A label stands for the placeholder when no symbol occurs in it; otherwise for a symbol
   * at the leftmost position where any occurs, and the longest one there.
   */
  lemma NormalizedLabelSpec(ts: seq<string>, atomLabel: string)
    requires SymbolTable(ts)
    ensures NormalizedLabel(ts, atomLabel) in ts
    ensures (forall p: nat, t | t in ts :: !OccursAt(atomLabel, t, p)) ==> NormalizedLabel(ts, atomLabel) == ts[0]
    ensures (exists p: nat, t | t in ts :: OccursAt(atomLabel, t, p)) ==>
      exists p: nat :: OccursAt(atomLabel, NormalizedLabel(ts, atomLabel), p)
        && (forall q: nat, t | q < p && t in ts :: !OccursAt(atomLabel, t, q))
        && forall t | t in ts && OccursAt(atomLabel, t, p) :: |t| <= |NormalizedLabel(ts, atomLabel)|
  {
    AlternativesSorted(ts);
    PickSymbolSpec(ts, AlternativesOf(ts), atomLabel);
  }

  /** normalized_atom_labels keeps one entry per label, each a symbol of the table. */
  lemma NormalizedAtomLabelsSpec(labels: seq<string>)
    ensures |NormalizedAtomLabels(labels)| == |labels|
    ensures forall i | 0 <= i < |labels| ::
      NormalizedAtomLabels(labels)[i] == NormalizedLabel(ChemicalSymbols, labels[i])
      && NormalizedLabel(ChemicalSymbols, labels[i]) in ChemicalSymbols
  {
    ChemicalSymbolsShape();
    forall i | 0 <= i < |labels| ensures NormalizedLabel(ChemicalSymbols, labels[i]) in ChemicalSymbols {
      NormalizedLabelSpec(ChemicalSymbols, labels[i]);
    }
  }

  /** The alternation tries Br before B: a label starting with Br stands for bromine. */
  lemma BromineBeforeBoron(ts: seq<string>, rest: string)
    requires SymbolTable(ts) && "Br" in ts
    ensures NormalizedLabel(ts, "Br" + rest) == "Br"
  {
    var atomLabel := "Br" + rest;
    assert OccursAt(atomLabel, "Br", 0);
    NormalizedLabelSpec(ts, atomLabel);
    var r := NormalizedLabel(ts, atomLabel);
    var p: nat :| OccursAt(atomLabel, r, p)
      && (forall q: nat, t | q < p && t in ts :: !OccursAt(atomLabel, t, q))
      && forall t | t in ts && OccursAt(atomLabel, t, p) :: |t| <= |r|;
    assert p == 0;
    var i :| 0 <= i < |ts| && ts[i] == r;
    assert |r| == 2;
    assert r[0] == atomLabel[0] && r[1] == atomLabel[1];
  }

  /** A label starting with Br stands for bromine in the chemical-symbol table. */
  lemma BromineLabel(rest: string)
    ensures NormalizedLabel(ChemicalSymbols, "Br" + rest) == "Br"
  {
    ChemicalSymbolsShape();
    BromineBeforeBoron(ChemicalSymbols, rest);
  }

  // ---------------------------------------------------------------------------
  // formula_normalizer

  /** collections.Counter over a sequence of symbols: keys in first-seen order with their counts. */
  type Counts = seq<(string, nat)>

  /** counter[key], 0 for a missing key. */
  function CountOf(c: Counts, k: string): nat
  {
    if c == [] then 0 else if c[0].0 == k then c[0].1 else CountOf(c[1..], k)
  }

  /** Counting one more occurrence of k. */
  function Bump(c: Counts, k: string): (r: Counts)
    ensures r != []
  {
    if c == [] then [(k, 1)]
    else if c[0].0 == k then [(k, c[0].1 + 1)] + c[1..]
    else [c[0]] + Bump(c[1..], k)
  }

  /** Counter(s), filled one element at a time. */
  function Counter(s: seq<string>): Counts
  {
    if s == [] then [] else Bump(Counter(s[..|s| - 1]), s[|s| - 1])
  }

  /** sum(counter.values()), added up from the left. */
  function SumCounts(c: Counts): nat
  {
    if c == [] then 0 else SumCounts(c[..|c| - 1]) + c[|c| - 1].1
  }

  /** counter.keys(), in order. */
  function KeysOf(c: Counts): (r: seq<string>)
    ensures |r| == |c| && forall i | 0 <= i < |c| :: r[i] == c[i].0
  {
    if c == [] then [] else [c[0].0] + KeysOf(c[1..])
  }

  predicate Positive(c: Counts) {
    forall i | 0 <= i < |c| :: c[i].1 >= 1
  }

  lemma {:induction false} SumCountsCons(e: (string, nat), c: Counts)
    ensures SumCounts([e] + c) == e.1 + SumCounts(c)
    decreases |c|
  {
    if c != [] {
      var d := [e] + c;
      assert d[..|d| - 1] == [e] + c[..|c| - 1];
      SumCountsCons(e, c[..|c| - 1]);
    }
  }

  lemma {:induction false} BumpCount(c: Counts, k: string)
    ensures forall x :: CountOf(Bump(c, k), x) == CountOf(c, x) + (if x == k then 1 else 0)
    decreases |c|
  {
    if c != [] && c[0].0 != k {
      BumpCount(c[1..], k);
      assert ([c[0]] + Bump(c[1..], k))[1..] == Bump(c[1..], k);
    } else if c != [] {
      assert ([(k, c[0].1 + 1)] + c[1..])[1..] == c[1..];
    }
  }

  lemma {:induction false} BumpSum(c: Counts, k: string)
    ensures SumCounts(Bump(c, k)) == SumCounts(c) + 1
    decreases |c|
  {
    if c != [] {
      assert c == [c[0]] + c[1..];
      SumCountsCons(c[0], c[1..]);
      if c[0].0 == k {
        SumCountsCons((k, c[0].1 + 1), c[1..]);
      } else {
        BumpSum(c[1..], k);
        SumCountsCons(c[0], Bump(c[1..], k));
      }
    }
  }

  /** A new key goes to the end; a known key keeps its place. */
  lemma {:induction false} BumpKeys(c: Counts, k: string)
    ensures KeysOf(Bump(c, k)) == if k in KeysOf(c) then KeysOf(c) else KeysOf(c) + [k]
    decreases |c|
  {
    if c != [] && c[0].0 != k {
      BumpKeys(c[1..], k);
      var b := Bump(c, k);
      assert KeysOf(b) == [c[0].0] + KeysOf(Bump(c[1..], k)) by {
        assert b[1..] == Bump(c[1..], k);
      }
      assert KeysOf(c) == [c[0].0] + KeysOf(c[1..]);
      assert k in KeysOf(c) <==> k in KeysOf(c[1..]);
    } else if c != [] {
      var b := Bump(c, k);
      assert b[1..] == c[1..];
      assert KeysOf(b) == KeysOf(c);
    }
  }

  lemma {:induction false} BumpPositive(c: Counts, k: string)
    requires Positive(c)
    ensures Positive(Bump(c, k))
    decreases |c|
  {
    if c != [] && c[0].0 != k {
      BumpPositive(c[1..], k);
      var b := Bump(c, k);
      assert forall i | 0 < i < |b| :: b[i] == Bump(c[1..], k)[i - 1];
    }
  }

  /** The counter holds every symbol once, with its number of occurrences, and the counts add up to the length. */
  lemma CounterSpec(s: seq<string>)
    ensures forall x :: CountOf(Counter(s), x) == multiset(s)[x]
    ensures SumCounts(Counter(s)) == |s|
    ensures forall x :: x in KeysOf(Counter(s)) <==> x in s
    ensures Resources.Distinct(KeysOf(Counter(s)))
    ensures Positive(Counter(s))
  {
    CounterCounts(s);
    CounterSum(s);
    CounterKeys(s);
    CounterPositive(s);
  }

  lemma {:induction false} CounterCounts(s: seq<string>)
    ensures forall x :: CountOf(Counter(s), x) == multiset(s)[x]
    decreases |s|
  {
    if s != [] {
      var pre := s[..|s| - 1];
      CounterCounts(pre);
      BumpCount(Counter(pre), s[|s| - 1]);
      assert s == pre + [s[|s| - 1]];
    }
  }

  lemma {:induction false} CounterSum(s: seq<string>)
    ensures SumCounts(Counter(s)) == |s|
    decreases |s|
  {
    if s != [] {
      var pre := s[..|s| - 1];
      CounterSum(pre);
      BumpSum(Counter(pre), s[|s| - 1]);
    }
  }

  lemma {:induction false} CounterKeys(s: seq<string>)
    ensures forall x :: x in KeysOf(Counter(s)) <==> x in s
    ensures Resources.Distinct(KeysOf(Counter(s)))
    decreases |s|
  {
    if s != [] {
      var pre := s[..|s| - 1];
      var last := s[|s| - 1];
      CounterKeys(pre);
      var c := Counter(pre);
      BumpKeys(c, last);
      assert s == pre + [last];
      if last !in KeysOf(c) {
        Resources.ConcatDistinct(KeysOf(c), [last]);
      }
    }
  }

  lemma {:induction false} CounterPositive(s: seq<string>)
    ensures Positive(Counter(s))
    decreases |s|
  {
    if s != [] {
      CounterPositive(s[..|s| - 1]);
      BumpPositive(Counter(s[..|s| - 1]), s[|s| - 1]);
    }
  }

  /** A counter with distinct keys gives each listed key its own count. */
  lemma {:induction false} CountOfAt(c: Counts, i: nat)
    requires i < |c| && Resources.Distinct(KeysOf(c))
    ensures CountOf(c, c[i].0) == c[i].1
    decreases i
  {
    if i > 0 {
      var ks := KeysOf(c);
      assert ks[0] != ks[i];
      assert Resources.Distinct(KeysOf(c[1..])) by {
        assert forall j | 0 <= j < |c| - 1 :: KeysOf(c[1..])[j] == ks[j + 1];
      }
      CountOfAt(c[1..], i - 1);
    }
  }

  /** round(100 * count / total). */
  function Percent(count: nat, total: nat): int
    requires total > 0
  {
    RoundHalfEven((100 * count) as real / total as real)
  }

  /** One (symbol, percentage) pair per counter entry, in counter order. */
  function Percents(c: Counts, total: nat): (r: seq<Resources.Entry>)
    requires c == [] || total > 0
    ensures |r| == |c| && forall i | 0 <= i < |c| :: r[i] == (c[i].0, Percent(c[i].1, total))
  {
    if c == [] then [] else Percents(c[..|c| - 1], total) + [(c[|c| - 1].0, Percent(c[|c| - 1].1, total))]
  }

  /** key + str(norm) for one entry. */
  function EntryText(e: Resources.Entry): string
  {
    e.0 + IntToString(e.1)
  }

  lemma PercentsStep(c: Counts, total: nat, k: nat)
    requires k < |c| && total > 0
    ensures Keyed(Percents(c[..k + 1], total), EntryText)
      == Keyed(Percents(c[..k], total), EntryText) + [c[k].0 + IntToString(Percent(c[k].1, total))]
  {
    assert c[..k + 1][..k] == c[..k];
    var a := Percents(c[..k], total);
    var e := (c[k].0, Percent(c[k].1, total));
    assert Percents(c[..k + 1], total) == a + [e];
    var l := Keyed(a + [e], EntryText);
    var m := Keyed(a, EntryText) + [EntryText(e)];
    assert |l| == |m|;
    forall i | 0 <= i < |l| ensures l[i] == m[i] {
      if i < |a| {
        assert (a + [e])[i] == a[i];
      }
    }
  }

  /** The value formula_normalizer returns for the given chemical symbols. */
  function FormulaOf(chemSymb: seq<string>): string
  {
    var counter := Counter(chemSymb);
    Join(SortStrings(Keyed(Percents(counter, |chemSymb|), EntryText)), "")
  }

  /** formula_normalizer: counts the symbols, renders each with its rounded percentage, sorts and joins. */
  method FormulaNormalizer(chemSymb: seq<string>) returns (r: string)
    ensures r == FormulaOf(chemSymb)
  {
    var atomsCounter: Counts := [];
    var i := 0;
    while i < |chemSymb|
      invariant i <= |chemSymb| && atomsCounter == Counter(chemSymb[..i])
    {
      assert chemSymb[..i + 1][..i] == chemSymb[..i];
      atomsCounter := Bump(atomsCounter, chemSymb[i]);
      i := i + 1;
    }
    assert chemSymb[..i] == chemSymb;
    var atomsTotal := 0;
    var j := 0;
    while j < |atomsCounter|
      invariant j <= |atomsCounter| && atomsTotal == SumCounts(atomsCounter[..j])
    {
      assert atomsCounter[..j + 1][..j] == atomsCounter[..j];
      atomsTotal := atomsTotal + atomsCounter[j].1;
      j := j + 1;
    }
    assert atomsCounter[..j] == atomsCounter;
    CounterSum(chemSymb);
    var atomsNormed: seq<string> := [];
    var k := 0;
    while k < |atomsCounter|
      invariant k <= |atomsCounter|
      invariant atomsNormed == Keyed(Percents(atomsCounter[..k], atomsTotal), EntryText)
    {
      PercentsStep(atomsCounter, atomsTotal, k);
      var key := atomsCounter[k].0;
      var norm := IntToString(RoundHalfEven((100 * atomsCounter[k].1) as real / atomsTotal as real));
      atomsNormed := atomsNormed + [key + norm];
      k := k + 1;
    }
    assert atomsCounter[..k] == atomsCounter;
    atomsNormed := SortStrings(atomsNormed);
    r := Join(atomsNormed, "");
  }

  /** Joining rendered entries with no separator is rendering them one after the other. */
  lemma {:induction false} JoinRendered(es: seq<Resources.Entry>)
    ensures Join(Keyed(es, EntryText), "") == Resources.RenderEntries(es)
    decreases |es|
  {
    if es != [] {
      JoinRendered(es[1..]);
      var ks := Keyed(es, EntryText);
      assert ks[1..] == Keyed(es[1..], EntryText);
      if |es| == 1 {
        assert Resources.RenderEntries(es[1..]) == "";
      }
    }
  }

  /**
   * For symbols of the element-symbol shape, the normalised formula reads back as one
   * (symbol, percentage) entry per distinct symbol: every symbol of the input appears,
   * none twice, each with round(100 * count / total), in the order of the sorted strings.
   */
  lemma FormulaReadsBack(chemSymb: seq<string>)
    requires forall i | 0 <= i < |chemSymb| :: Resources.IsSymbol(chemSymb[i])
    ensures Resources.ReadEntries(FormulaOf(chemSymb)).Some?
    ensures var es := Resources.ReadEntries(FormulaOf(chemSymb)).value;
      (forall x :: x in chemSymb <==> exists i | 0 <= i < |es| :: es[i].0 == x)
      && (forall i, j | 0 <= i < j < |es| :: es[i].0 != es[j].0)
      && (forall i | 0 <= i < |es| :: es[i].1 == Percent(multiset(chemSymb)[es[i].0], |chemSymb|))
      && SortedBy(es, EntryText)
  {
    CounterSpec(chemSymb);
    var c := Counter(chemSymb);
    var ps := Percents(c, |chemSymb|);
    var es := SortBy(ps, EntryText);
    SortByKeyed(ps, EntryText);
    SortBySorted(ps, EntryText);
    JoinRendered(es);
    assert FormulaOf(chemSymb) == Resources.RenderEntries(es);
    EntriesOfCounter(chemSymb, c, ps, es);
    Resources.ReadRender(es);
  }

  lemma EntriesOfCounter(chemSymb: seq<string>, c: Counts, ps: seq<Resources.Entry>, es: seq<Resources.Entry>)
    requires forall i | 0 <= i < |chemSymb| :: Resources.IsSymbol(chemSymb[i])
    requires c == Counter(chemSymb) && ps == Percents(c, |chemSymb|) && multiset(es) == multiset(ps)
    ensures forall i | 0 <= i < |es| :: Resources.IsSymbol(es[i].0)
    ensures forall x :: x in chemSymb <==> exists i | 0 <= i < |es| :: es[i].0 == x
    ensures forall i, j | 0 <= i < j < |es| :: es[i].0 != es[j].0
    ensures forall i | 0 <= i < |es| :: es[i].1 == Percent(multiset(chemSymb)[es[i].0], |chemSymb|)
  {
    CounterCounts(chemSymb);
    CounterKeys(chemSymb);
    forall i | 0 <= i < |es| {
      EntryOfCounter(chemSymb, c, ps, es, i);
    }
    forall x {
      SymbolHasEntry(chemSymb, c, ps, es, x);
    }
    EntriesDistinct(c, |chemSymb|, ps, es);
  }

  lemma EntryOfCounter(chemSymb: seq<string>, c: Counts, ps: seq<Resources.Entry>, es: seq<Resources.Entry>, i: nat)
    requires forall i | 0 <= i < |chemSymb| :: Resources.IsSymbol(chemSymb[i])
    requires forall x :: CountOf(c, x) == multiset(chemSymb)[x]
    requires (forall x :: x in KeysOf(c) <==> x in chemSymb) && Resources.Distinct(KeysOf(c))
    requires c == [] || |chemSymb| > 0
    requires ps == Percents(c, |chemSymb|) && multiset(es) == multiset(ps) && i < |es|
    ensures Resources.IsSymbol(es[i].0) && es[i].1 == Percent(multiset(chemSymb)[es[i].0], |chemSymb|)
  {
    assert es[i] in multiset(ps);
    var j :| 0 <= j < |ps| && ps[j] == es[i];
    assert KeysOf(c)[j] in KeysOf(c);
    var q :| 0 <= q < |chemSymb| && chemSymb[q] == c[j].0;
    CountOfAt(c, j);
  }

  lemma SymbolHasEntry(chemSymb: seq<string>, c: Counts, ps: seq<Resources.Entry>, es: seq<Resources.Entry>, x: string)
    requires (forall x :: x in KeysOf(c) <==> x in chemSymb)
    requires c == [] || |chemSymb| > 0
    requires ps == Percents(c, |chemSymb|) && multiset(es) == multiset(ps)
    ensures x in chemSymb <==> exists i | 0 <= i < |es| :: es[i].0 == x
  {
    if x in chemSymb {
      assert x in KeysOf(c);
      var j :| 0 <= j < |c| && KeysOf(c)[j] == x;
      assert ps[j] in multiset(es);
      var i :| 0 <= i < |es| && es[i] == ps[j];
      assert es[i].0 == x;
    }
    if exists i | 0 <= i < |es| :: es[i].0 == x {
      var i :| 0 <= i < |es| && es[i].0 == x;
      assert es[i] in multiset(ps);
      var j :| 0 <= j < |ps| && ps[j] == es[i];
      assert KeysOf(c)[j] in KeysOf(c);
    }
  }

  lemma EntriesDistinct(c: Counts, total: nat, ps: seq<Resources.Entry>, es: seq<Resources.Entry>)
    requires Resources.Distinct(KeysOf(c))
    requires (c == [] || total > 0) && ps == Percents(c, total) && multiset(es) == multiset(ps)
    ensures forall i, j | 0 <= i < j < |es| :: es[i].0 != es[j].0
  {
    PercentsDistinctKeys(c, total, ps);
    forall i, j | 0 <= i < j < |es| ensures es[i].0 != es[j].0 {
      PermutedKeysDistinct(ps, es, i, j);
    }
  }

  /** The percentages keep the distinct symbols of the counter, in order. */
  lemma PercentsDistinctKeys(c: Counts, total: nat, ps: seq<Resources.Entry>)
    requires Resources.Distinct(KeysOf(c)) && (c == [] || total > 0) && ps == Percents(c, total)
    ensures forall x, y | 0 <= x < y < |ps| :: ps[x].0 != ps[y].0
  {
    forall x, y | 0 <= x < y < |ps| ensures ps[x].0 != ps[y].0 {
      assert ps[x].0 == KeysOf(c)[x] && ps[y].0 == KeysOf(c)[y];
    }
  }

  /** A permutation of entries with distinct keys has distinct keys. */
  lemma PermutedKeysDistinct(ps: seq<Resources.Entry>, es: seq<Resources.Entry>, i: nat, j: nat)
    requires multiset(es) == multiset(ps) && (forall x, y | 0 <= x < y < |ps| :: ps[x].0 != ps[y].0)
    requires i < j < |es|
    ensures es[i].0 != es[j].0
  {
    assert es[i] in multiset(ps) && es[j] in multiset(ps);
    var a :| 0 <= a < |ps| && ps[a] == es[i];
    var b :| 0 <= b < |ps| && ps[b] == es[j];
    if es[i].0 == es[j].0 {
      assert a == b;
      Resources.SortedDuplicate(es, ps, i, j);
    }
  }

  /** The examples of formula_normalizer's documentation: Tc, SZn and Co2Nb. */
  lemma FormulaExamples()
    ensures FormulaOf(["Tc"]) == "Tc100"
    ensures FormulaOf(["S", "Zn"]) == "S50Zn50"
    ensures FormulaOf(["Co", "Co", "Nb"]) == "Co67Nb33"
  {
    FormulaTc();
    FormulaSZn();
    FormulaCo2Nb();
  }

  lemma FormulaTc()
    ensures FormulaOf(["Tc"]) == "Tc100"
  {
  }

  lemma FormulaSZn()
    ensures FormulaOf(["S", "Zn"]) == "S50Zn50"
  {
    CounterSZn();
    PercentsSZn();
    SortTwo(["S50", "Zn50"]);
  }

  lemma CounterSZn()
    ensures Counter(["S", "Zn"]) == [("S", 1), ("Zn", 1)]
  {
    var s := ["S", "Zn"];
    assert s[..1] == ["S"];
    assert Counter(["S"]) == [("S", 1)];
    assert Bump([("S", 1)], "Zn") == [("S", 1), ("Zn", 1)] by {
      assert [("S", 1)][1..] == [];
    }
  }

  lemma PercentsSZn()
    ensures Keyed(Percents([("S", 1), ("Zn", 1)], 2), EntryText) == ["S50", "Zn50"]
  {
    assert Percent(1, 2) == 50;
    assert IntToString(50) == "50";
    var ps := Percents([("S", 1), ("Zn", 1)], 2);
    assert ps == [("S", 50), ("Zn", 50)];
    assert EntryText(ps[0]) == "S50" && EntryText(ps[1]) == "Zn50";
  }

  lemma FormulaCo2Nb()
    ensures FormulaOf(["Co", "Co", "Nb"]) == "Co67Nb33"
  {
    CounterCo2Nb();
    PercentsCo2Nb();
    SortTwo(["Co67", "Nb33"]);
  }

  lemma PercentsCo2Nb()
    ensures Keyed(Percents([("Co", 2), ("Nb", 1)], 3), EntryText) == ["Co67", "Nb33"]
  {
    assert Percent(2, 3) == 67;
    assert Percent(1, 3) == 33;
    assert IntToString(67) == "67" && IntToString(33) == "33";
    var ps := Percents([("Co", 2), ("Nb", 1)], 3);
    assert ps == [("Co", 67), ("Nb", 33)];
    assert EntryText(ps[0]) == "Co67" && EntryText(ps[1]) == "Nb33";
  }

  lemma CounterCo2Nb()
    ensures Counter(["Co", "Co", "Nb"]) == [("Co", 2), ("Nb", 1)]
  {
    var s := ["Co", "Co", "Nb"];
    assert s[..2] == ["Co", "Co"];
    assert Counter(["Co", "Co"]) == [("Co", 2)] by {
      assert ["Co", "Co"][..1] == ["Co"];
      assert Counter(["Co"]) == [("Co", 1)];
      assert [("Co", 1)][1..] == [];
    }
    assert Bump([("Co", 2)], "Nb") == [("Co", 2), ("Nb", 1)] by {
      assert [("Co", 2)][1..] == [];
    }
  }

  lemma SortTwo(texts: seq<string>)
    requires |texts| == 2 && Less(texts[0], texts[1])
    ensures SortStrings(texts) == texts && Join(texts, "") == texts[0] + texts[1]
  {
    assert Insert(texts[1], [], Id) == [texts[1]];
    assert SortBy(texts[1..], Id) == [texts[1]];
    assert LessEq(texts[0], texts[1]);
    assert texts[1..][1..] == [];
  }

  // ---------------------------------------------------------------------------
  // SystemNormalizer.atom_label_to_num

  /**
   * str.title on ASCII text: a letter right after a letter is lower-cased, any other
   * character is upper-cased (characters without case are unchanged).
   */
  function TitleFrom(s: string, afterLetter: bool): (r: string)
    ensures |r| == |s|
  {
    if s == [] then []
    else [if afterLetter then LowerChar(s[0]) else UpperChar(s[0])] + TitleFrom(s[1..], IsAsciiLetter(s[0]))
  }

  function Title(s: string): (r: string)
    ensures |r| == |s|
  {
    TitleFrom(s, false)
  }

  lemma {:induction false} TitleFromAt(s: string, afterLetter: bool, i: nat)
    requires i < |s|
    ensures TitleFrom(s, afterLetter)[i]
      == if (if i == 0 then afterLetter else IsAsciiLetter(s[i - 1])) then LowerChar(s[i]) else UpperChar(s[i])
    decreases i
  {
    if i > 0 {
      TitleFromAt(s[1..], IsAsciiLetter(s[0]), i - 1);
    }
  }

  /** Every character is upper-cased at a word start and lower-cased after a letter. */
  lemma TitleChars(s: string)
    ensures forall i | 0 <= i < |s| ::
      Title(s)[i] == if i > 0 && IsAsciiLetter(s[i - 1]) then LowerChar(s[i]) else UpperChar(s[i])
  {
    forall i | 0 <= i < |s|
      ensures Title(s)[i] == if i > 0 && IsAsciiLetter(s[i - 1]) then LowerChar(s[i]) else UpperChar(s[i])
    {
      TitleFromAt(s, false, i);
    }
  }

  lemma {:induction false} TitleFromIdempotent(s: string, afterLetter: bool)
    ensures TitleFrom(TitleFrom(s, afterLetter), afterLetter) == TitleFrom(s, afterLetter)
    decreases |s|
  {
    if s != [] {
      var t := TitleFrom(s, afterLetter);
      var c := t[0];
      assert IsAsciiLetter(c) == IsAsciiLetter(s[0]);
      assert t[1..] == TitleFrom(s[1..], IsAsciiLetter(s[0]));
      TitleFromIdempotent(s[1..], IsAsciiLetter(s[0]));
    }
  }

  /** Title-casing twice is title-casing once. */
  lemma TitleIdempotent(s: string)
    ensures Title(Title(s)) == Title(s)
  {
    TitleFromIdempotent(s, false);
  }

  /** s[:n]: the first n characters, or all of s when it is shorter. */
  function Prefix(s: string, n: nat): (r: string)
    ensures |r| == if n <= |s| then n else |s|
    ensures r == s[..|r|]
  {
    if n <= |s| then s[..n] else s
  }

  /**
   * The loop of atom_label_to_num over a table ts: the position of the first of the prefixes
   * of length 3, 2 and 1 of word that ts holds, or 0 without one.
   */
  method PrefixNumber(ts: seq<string>, word: string) returns (n: nat)
    requires ts != []
    ensures n < |ts|
    ensures (forall k | 1 <= k <= 3 :: Prefix(word, k) !in ts) ==> n == 0
    ensures (exists k | 1 <= k <= 3 :: Prefix(word, k) in ts) ==>
      exists k | 1 <= k <= 3 :: Prefix(word, k) in ts
        && n == IndexOf(ts, Prefix(word, k))
        && forall m | k < m <= 3 :: Prefix(word, m) !in ts
  {
    var symbolLength := 3;
    while symbolLength >= 1
      invariant 0 <= symbolLength <= 3
      invariant forall m | symbolLength < m <= 3 :: Prefix(word, m) !in ts
    {
      var symbol := Prefix(word, symbolLength);
      if symbol in ts {
        n := IndexOf(ts, symbol);
        return;
      }
      symbolLength := symbolLength - 1;
    }
    n := 0;
  }

  /**
   * atom_label_to_num: the atomic number of the longest known symbol among the prefixes of
   * length 3, 2 and 1 of the title-cased first three characters, or 0 without one.
   */
  method AtomLabelToNum(atomLabel: string) returns (n: nat)
    ensures n < |ChemicalSymbols|
    ensures var t := Title(Prefix(atomLabel, 3));
      (forall k | 1 <= k <= 3 :: Prefix(t, k) !in ChemicalSymbols) ==> n == 0
    ensures var t := Title(Prefix(atomLabel, 3));
      (exists k | 1 <= k <= 3 :: Prefix(t, k) in ChemicalSymbols) ==>
        exists k | 1 <= k <= 3 :: Prefix(t, k) in ChemicalSymbols
          && n == IndexOf(ChemicalSymbols, Prefix(t, k))
          && forall m | k < m <= 3 :: Prefix(t, m) !in ChemicalSymbols
  {
    ChemicalSymbolsShape();
    n := PrefixNumber(ChemicalSymbols, Title(Prefix(atomLabel, 3)));
  }

  // ---------------------------------------------------------------------------
  // system_type_analysis

  /** The class matid's Classifier returns; Other stands for the classes the mapping does not name. */
  datatype Classification = Class3D | Atom | Class0D | Class1D | Surface | Material2D | Other

  /** The system type each named class maps to. */
  function ClassName(c: Classification): (r: Option<string>)
    ensures r.None? <==> c == Other
  {
    match c
    case Class3D => Some("bulk")
    case Atom => Some("atom")
    case Class0D => Some("molecule / cluster")
    case Class1D => Some("1D")
    case Surface => Some("surface")
    case Material2D => Some("2D")
    case Other => None
  }

  /** The class a system type string names: the inverse of ClassName. */
  function ClassOfName(name: string): (r: Option<Classification>)
  {
    if name == "bulk" then Some(Class3D)
    else if name == "atom" then Some(Atom)
    else if name == "molecule / cluster" then Some(Class0D)
    else if name == "1D" then Some(Class1D)
    else if name == "surface" then Some(Surface)
    else if name == "2D" then Some(Material2D)
    else None
  }

  /** Distinct classes get distinct names, and each name gives its class back. */
  lemma ClassNameInverse(c: Classification)
    ensures ClassName(c).Some? ==> ClassOfName(ClassName(c).value) == Some(c)
    ensures ClassName(c).None? <==> c == Other
  {
  }

  lemma ClassOfNameInverse(name: string)
    ensures ClassOfName(name).Some? ==> ClassName(ClassOfName(name).value) == Some(name)
  {
  }

  /**
   * system_type_analysis: unavailable for a system above the classification threshold, when
   * the classifier raises (classified is None) or for a class outside the mapping; otherwise
   * the class's system type.
   */
  function SystemTypeAnalysis(nAtoms: nat, threshold: int, classified: Option<Classification>, unavailable: string): (r: string)
    ensures r == unavailable || ClassOfName(r).Some?
  {
    if nAtoms <= threshold && classified.Some? && ClassName(classified.value).Some? then
      ClassNameInverse(classified.value);
      ClassName(classified.value).value
    else unavailable
  }

  /** A system type other than the unavailable value is given exactly when a named class was found in time. */
  lemma SystemTypeSpec(nAtoms: nat, threshold: int, classified: Option<Classification>, unavailable: string)
    requires ClassOfName(unavailable).None?
    ensures var r := SystemTypeAnalysis(nAtoms, threshold, classified, unavailable);
      (r != unavailable <==> nAtoms <= threshold && classified.Some? && classified.value != Other)
      && (r != unavailable ==> ClassOfName(r) == classified)
  {
    if classified.Some? {
      ClassNameInverse(classified.value);
    }
  }

  // ---------------------------------------------------------------------------
  // normalize_system: the checks that end the normalisation early

  /** ts[i] with Python's negative indexing; None where Python raises IndexError. */
  function PyIndex(ts: seq<string>, i: int): (r: Option<string>)
    ensures r.Some? <==> -|ts| <= i < |ts|
    ensures r.Some? ==> r.value in ts
  {
    if 0 <= i < |ts| then Some(ts[i])
    else if -|ts| <= i < 0 then Some(ts[|ts| + i])
    else None
  }

  /** list(ts[species] for species in atom_species); None at the first IndexError. */
  function LabelsOfSpecies(ts: seq<string>, species: seq<int>): (r: Option<seq<string>>)
  {
    if species == [] then Some([])
    else match (PyIndex(ts, species[0]), LabelsOfSpecies(ts, species[1..]))
      case (Some(l), Some(rest)) => Some([l] + rest)
      case _ => None
  }

  lemma {:induction false} LabelsOfSpeciesSpec(ts: seq<string>, species: seq<int>)
    ensures LabelsOfSpecies(ts, species).Some? <==> forall i | 0 <= i < |species| :: -|ts| <= species[i] < |ts|
    ensures LabelsOfSpecies(ts, species).Some? ==>
      var ls := LabelsOfSpecies(ts, species).value;
      |ls| == |species| && forall i | 0 <= i < |species| :: PyIndex(ts, species[i]) == Some(ls[i])
    decreases |species|
  {
    if species != [] {
      LabelsOfSpeciesSpec(ts, species[1..]);
      assert forall i | 1 <= i < |species| :: species[i] == species[1..][i - 1];
    }
  }

  /** atoms.get_atomic_numbers(): each label's position in the table. */
  function AtomicNumbers(ts: seq<string>, labels: seq<string>): (r: seq<nat>)
    requires forall i | 0 <= i < |labels| :: labels[i] in ts
    ensures |r| == |labels| && forall i | 0 <= i < |labels| :: r[i] < |ts| && ts[r[i]] == labels[i]
  {
    seq(|labels|, i requires 0 <= i < |labels| => IndexOf(ts, labels[i]))
  }

  /**
   * What normalize_system reads from the system section. The ase calls that can raise are
   * given by whether they accept the value: set_pbc, set_positions and set_cell.
   */
  datatype SystemData = SystemData(
    atomLabels: Option<seq<string>>,
    atomSpecies: Option<seq<int>>,
    pbc: Option<seq<bool>>,
    pbcAccepted: bool,
    positionCount: Option<nat>,
    positionsAccepted: bool,
    hasLatticeVectors: bool,
    cellAccepted: bool)

  /** Why normalize_system returned False. */
  datatype Rejection =
    | NoLabelsOrSpecies
    | SpeciesOutOfRange
    | PbcRejected
    | NoPositions
    | PositionCountMismatch
    | PositionsRejected
    | CellRejected

  /** False with its reason, or True with the labels, species and periodicity written back. */
  datatype SystemOutcome =
    | Rejected(reason: Rejection)
    | Normalized(labels: seq<string>, species: seq<nat>, pbc: seq<bool>)

  /** The atom labels normalize_system works with: normalised given labels, else labels from the species. */
  function SystemLabels(d: SystemData): (r: Option<seq<string>>)
    requires d.atomLabels.Some? || d.atomSpecies.Some?
    ensures r.Some? ==> forall i | 0 <= i < |r.value| :: r.value[i] in ChemicalSymbols
  {
    if d.atomLabels.Some? then
      NormalizedAtomLabelsSpec(d.atomLabels.value);
      Some(NormalizedAtomLabels(d.atomLabels.value))
    else
      LabelsOfSpeciesSpec(ChemicalSymbols, d.atomSpecies.value);
      LabelsOfSpecies(ChemicalSymbols, d.atomSpecies.value)
  }

  /**
   * The guard chain of normalize_system, in its order, up to the successful return: False
   * without labels and species, for a species index out of range, for periodicity, positions
   * or cell that ase refuses, and for missing positions or a position count other than the
   * atom count. On success the labels are table entries, the species are their atomic
   * numbers, and missing periodicity becomes [False, False, False].
   */
  function NormalizeSystem(d: SystemData): (r: SystemOutcome)
    ensures r == Rejected(NoLabelsOrSpecies) <==> d.atomLabels.None? && d.atomSpecies.None?
    ensures (d.atomLabels.Some? || d.atomSpecies.Some?) && SystemLabels(d).Some? && d.pbcAccepted
      && d.positionCount.Some? && d.positionCount.value != |SystemLabels(d).value|
      ==> r == Rejected(PositionCountMismatch)
    ensures r.Normalized? ==>
      |r.species| == |r.labels| && d.positionCount == Some(|r.labels|)
      && (forall i | 0 <= i < |r.labels| :: r.species[i] < |ChemicalSymbols| && ChemicalSymbols[r.species[i]] == r.labels[i])
      && d.pbcAccepted && d.positionsAccepted && (d.hasLatticeVectors ==> d.cellAccepted)
      && r.pbc == d.pbc.GetOr([false, false, false])
    ensures r.Normalized? && d.atomLabels.Some? ==> r.labels == NormalizedAtomLabels(d.atomLabels.value)
    ensures (d.atomLabels.Some? || d.atomSpecies.Some?) && SystemLabels(d).Some? && d.pbcAccepted
      && d.positionCount == Some(|SystemLabels(d).value|) && d.positionsAccepted
      && (d.hasLatticeVectors ==> d.cellAccepted)
      ==> r.Normalized?
  {
    if d.atomLabels.None? && d.atomSpecies.None? then Rejected(NoLabelsOrSpecies)
    else
      match SystemLabels(d)
      case None => Rejected(SpeciesOutOfRange)
      case Some(labels) =>
        if !d.pbcAccepted then Rejected(PbcRejected)
        else if d.positionCount.None? then Rejected(NoPositions)
        else if d.positionCount.value != |labels| then Rejected(PositionCountMismatch)
        else if !d.positionsAccepted then Rejected(PositionsRejected)
        else if d.hasLatticeVectors && !d.cellAccepted then Rejected(CellRejected)
        else Normalized(labels, AtomicNumbers(ChemicalSymbols, labels), d.pbc.GetOr([false, false, false]))
  }

  /**
   * Each guard's own rejection, once the guards before it have passed: the
   * species lookup, then periodicity, missing positions, the position count,
   * the positions and the cell; and True exactly when every guard passes.
   */
  lemma NormalizeSystemOutcomes(d: SystemData)
    requires d.atomLabels.Some? || d.atomSpecies.Some?
    ensures SystemLabels(d).None? ==> NormalizeSystem(d) == Rejected(SpeciesOutOfRange)
    ensures SystemLabels(d).Some? ==>
      var n := |SystemLabels(d).value|;
      var r := NormalizeSystem(d);
      && (!d.pbcAccepted ==> r == Rejected(PbcRejected))
      && (d.pbcAccepted && d.positionCount.None? ==> r == Rejected(NoPositions))
      && (d.pbcAccepted && d.positionCount == Some(n) && !d.positionsAccepted ==> r == Rejected(PositionsRejected))
      && (d.pbcAccepted && d.positionCount == Some(n) && d.positionsAccepted && d.hasLatticeVectors && !d.cellAccepted
          ==> r == Rejected(CellRejected))
      && (r.Normalized? <==>
          d.pbcAccepted && d.positionCount == Some(n) && d.positionsAccepted && (d.hasLatticeVectors ==> d.cellAccepted))
  {
  }

  /** Species outside -119..118 make the label lookup raise IndexError, when labels are missing. */
  lemma SpeciesOutOfRangeSpec(d: SystemData)
    ensures NormalizeSystem(d) == Rejected(SpeciesOutOfRange) <==>
      d.atomLabels.None? && d.atomSpecies.Some?
      && exists i | 0 <= i < |d.atomSpecies.value| :: !(-|ChemicalSymbols| <= d.atomSpecies.value[i] < |ChemicalSymbols|)
  {
    if d.atomLabels.None? && d.atomSpecies.Some? {
      LabelsOfSpeciesSpec(ChemicalSymbols, d.atomSpecies.value);
    }
  }

  /** Without labels, each label is the table entry at the species index, negative indices counting from the end. */
  lemma NormalizedFromSpecies(d: SystemData)
    requires NormalizeSystem(d).Normalized? && d.atomLabels.None?
    ensures d.atomSpecies.Some? && |NormalizeSystem(d).labels| == |d.atomSpecies.value|
    ensures forall i | 0 <= i < |d.atomSpecies.value| ::
      PyIndex(ChemicalSymbols, d.atomSpecies.value[i]) == Some(NormalizeSystem(d).labels[i])
  {
    LabelsOfSpeciesSpec(ChemicalSymbols, d.atomSpecies.value);
  }

  // ---------------------------------------------------------------------------
  // SystemNormalizer.prototypes: the prototype section

  /** The entry of the AFLOW prototype data that search_aflow_prototype returns. */
  datatype AflowPrototype = AflowPrototype(
    aflowPrototypeId: string,
    aflowPrototypeUrl: string,
    notes: string,
    prototypeName: string,
    strukturbericht: string,
    pearsonSymbol: Option<string>)

  /** section_prototype with the values it keeps in its cache. */
  datatype PrototypeSection = PrototypeSection(
    prototypeLabel: string,
    aflowId: string,
    aflowUrl: string,
    assignmentMethod: string,
    cache: map<string, string>)

  /** '%d-%s-%s' % (spg_number, name, pearson symbol or '-'). */
  function PrototypeLabel(spgNumber: int, name: string, pearson: Option<string>): string
  {
    IntToString(spgNumber) + "-" + name + "-" + pearson.GetOr("-")
  }

  /** For a space group number and name and Pearson symbol without '-', the label splits back into its parts. */
  lemma PrototypeLabelSplit(spgNumber: nat, name: string, pearson: Option<string>)
    requires NoChar(name, '-') && (pearson.Some? ==> NoChar(pearson.value, '-'))
    ensures Split(PrototypeLabel(spgNumber, name, pearson), '-')
      == [NatToString(spgNumber), name] + (if pearson.Some? then [pearson.value] else ["", ""])
    ensures DigitsValue(NatToString(spgNumber)) == spgNumber
  {
    var num := NatToString(spgNumber);
    var tail := pearson.GetOr("-");
    assert NoChar(num, '-') by {
      assert forall i | 0 <= i < |num| :: IsDigit(num[i]);
    }
    DigitsValueOfNatToString(spgNumber);
    assert PrototypeLabel(spgNumber, name, pearson) == num + ['-'] + (name + ['-'] + tail);
    SplitConcat(num, name + ['-'] + tail, '-');
    SplitConcat(name, tail, '-');
    if pearson.Some? {
      SplitNoChar(tail, '-');
    } else {
      assert tail == "" + ['-'] + "";
      SplitConcat("", "", '-');
    }
  }

  /**
   * The section prototypes adds for a matched prototype (none without a match); the
   * strukturbericht designation is cached only when it is not the string "None".
   */
  function PrototypeOf(spgNumber: int, proto: Option<AflowPrototype>): (r: Option<PrototypeSection>)
    ensures r.Some? <==> proto.Some?
    ensures r.Some? ==> var p := proto.value; var sec := r.value;
      ("strukturbericht_designation" in sec.cache <==> p.strukturbericht != "None")
      && (p.strukturbericht != "None" ==> sec.cache["strukturbericht_designation"] == p.strukturbericht)
      && "prototype_notes" in sec.cache && sec.cache["prototype_notes"] == p.notes
      && "prototype_name" in sec.cache && sec.cache["prototype_name"] == p.prototypeName
      && sec.prototypeLabel == PrototypeLabel(spgNumber, p.prototypeName, p.pearsonSymbol)
  {
    match proto
    case None => None
    case Some(p) =>
      var cache := map["prototype_notes" := p.notes, "prototype_name" := p.prototypeName];
      Some(PrototypeSection(
        PrototypeLabel(spgNumber, p.prototypeName, p.pearsonSymbol),
        p.aflowPrototypeId,
        p.aflowPrototypeUrl,
        "normalized-wyckoff",
        if p.strukturbericht != "None" then cache["strukturbericht_designation" := p.strukturbericht] else cache))
  }
}
