/**
 * The helpers of the external-resources router: the space-group table, the
 * chemical-formula tokeniser with its component counting and percentage formula,
 * the AFLOW and OPTIMADE query URLs, the "first five per database" ordering of
 * cached results and the decision to refresh the cache.
 */
module Resources {
  import opened Wrappers
  import opened Strings
  import opened Numbers

  // ---------------------------------------------------------------------------
  // Space group number -> crystal system

  function Repeat(x: string, n: nat): (r: seq<string>)
    ensures |r| == n
    ensures forall i | 0 <= i < n :: r[i] == x
  {
    if n == 0 then [] else Repeat(x, n - 1) + [x]
  }

  /** The crystal system of space groups 1..230, at index number - 1. */
  const SpaceGroups: seq<string> :=
    Repeat("triclinic", 2) + Repeat("monoclinic", 13) + Repeat("orthorhombic", 59)
    + Repeat("tetragonal", 68) + Repeat("trigonal", 25) + Repeat("hexagonal", 27)
    + Repeat("cubic", 36)

  /** The crystal systems by the ranges of the International Tables for Crystallography. */
  function CrystalSystem(n: int): string
    requires 1 <= n <= 230
  {
    if n <= 2 then "triclinic"
    else if n <= 15 then "monoclinic"
    else if n <= 74 then "orthorhombic"
    else if n <= 142 then "tetragonal"
    else if n <= 167 then "trigonal"
    else if n <= 194 then "hexagonal"
    else "cubic"
  }

  lemma SpaceGroupsTable()
    ensures |SpaceGroups| == 230
    ensures forall n | 1 <= n <= 230 :: SpaceGroups[n - 1] == CrystalSystem(n)
  {
    var a := Repeat("triclinic", 2);
    var b := a + Repeat("monoclinic", 13);
    var c := b + Repeat("orthorhombic", 59);
    var d := c + Repeat("tetragonal", 68);
    var e := d + Repeat("trigonal", 25);
    var f := e + Repeat("hexagonal", 27);
    var g := f + Repeat("cubic", 36);
    AppendRepeat(a, "monoclinic", 13);
    AppendRepeat(b, "orthorhombic", 59);
    AppendRepeat(c, "tetragonal", 68);
    AppendRepeat(d, "trigonal", 25);
    AppendRepeat(e, "hexagonal", 27);
    AppendRepeat(f, "cubic", 36);
    assert SpaceGroups == g;
  }

  /** p followed by k copies of x: p's entries first, then x. */
  lemma AppendRepeat(p: seq<string>, x: string, k: nat)
    ensures |p + Repeat(x, k)| == |p| + k
    ensures forall i | 0 <= i < |p| :: (p + Repeat(x, k))[i] == p[i]
    ensures forall i | |p| <= i < |p| + k :: (p + Repeat(x, k))[i] == x
  {
  }

  // ---------------------------------------------------------------------------
  // Python dictionaries with insertion order: a sequence of entries with distinct keys

  type Dict = seq<(string, real)>

  function Keys(d: Dict): (r: seq<string>)
    ensures |r| == |d| && forall i | 0 <= i < |d| :: r[i] == d[i].0
  {
    if d == [] then [] else [d[0].0] + Keys(d[1..])
  }

  predicate DistinctKeys(d: Dict) {
    forall i, j | 0 <= i < j < |d| :: d[i].0 != d[j].0
  }

  /** d.get(k). */
  function Lookup(d: Dict, k: string): Option<real>
  {
    if d == [] then None
    else if d[0].0 == k then Some(d[0].1)
    else Lookup(d[1..], k)
  }

  lemma {:induction false} LookupKeys(d: Dict, k: string)
    ensures Lookup(d, k).Some? <==> k in Keys(d)
  {
    if d != [] && d[0].0 != k {
      LookupKeys(d[1..], k);
    }
  }

  lemma {:induction false} LookupAppend(d: Dict, k: string, v: real, j: string)
    ensures Lookup(d + [(k, v)], j) == if k !in Keys(d) && j == k then Some(v) else Lookup(d, j)
  {
    if d != [] {
      assert (d + [(k, v)])[1..] == d[1..] + [(k, v)];
      LookupAppend(d[1..], k, v, j);
    }
  }

  /** d[k] = v: the value of an existing key is replaced where it stands, a new key goes last. */
  function Put(d: Dict, k: string, v: real): Dict
  {
    if d == [] then [(k, v)]
    else if d[0].0 == k then [(k, v)] + d[1..]
    else [d[0]] + Put(d[1..], k, v)
  }

  lemma {:induction false} PutKeys(d: Dict, k: string, v: real)
    ensures Keys(Put(d, k, v)) == if k in Keys(d) then Keys(d) else Keys(d) + [k]
  {
    if d != [] && d[0].0 != k {
      PutKeys(d[1..], k, v);
      assert Keys([d[0]] + Put(d[1..], k, v)) == [d[0].0] + Keys(Put(d[1..], k, v));
    }
  }

  lemma {:induction false} PutLookup(d: Dict, k: string, v: real, j: string)
    ensures Lookup(Put(d, k, v), j) == if j == k then Some(v) else Lookup(d, j)
  {
    if d != [] && d[0].0 != k {
      PutLookup(d[1..], k, v, j);
      assert Put(d, k, v)[1..] == Put(d[1..], k, v);
    }
  }

  lemma PutDistinct(d: Dict, k: string, v: real)
    requires DistinctKeys(d)
    ensures DistinctKeys(Put(d, k, v))
  {
    var r := Put(d, k, v);
    var kr := Keys(r);
    PutKeys(d, k, v);
    assert forall i | 0 <= i < |r| :: r[i].0 == kr[i];
    if k !in Keys(d) {
      assert forall i | 0 <= i < |d| :: kr[i] == d[i].0;
    }
  }

  /** The keys of ks not among prior, in the order of ks. */
  function NewKeys(ks: seq<string>, prior: seq<string>): (r: seq<string>)
    ensures forall k :: k in r <==> k in ks && k !in prior
  {
    if ks == [] then []
    else NewKeys(ks[..|ks| - 1], prior) + (if ks[|ks| - 1] in prior then [] else [ks[|ks| - 1]])
  }

  /** The value a key has after merging: the sum when both sides have it. */
  function Merged(a: Option<real>, b: Option<real>): Option<real>
  {
    if a.Some? && b.Some? then Some(a.value + b.value)
    else if a.Some? then a
    else b
  }

  /** The dictionary after one entry (key, val) of the source is added in. */
  function AddEntry(d: Dict, key: string, val: real): Dict
  {
    var found := Lookup(d, key);
    if found.Some? then Put(d, key, found.value + val) else Put(d, key, val)
  }

  lemma AddEntryLookup(r: Dict, target: Dict, src: Dict, key: string, val: real, k: string)
    requires key !in Keys(src)
    requires Lookup(r, k) == Merged(Lookup(target, k), Lookup(src, k))
    requires Lookup(r, key) == Merged(Lookup(target, key), Lookup(src, key))
    ensures Lookup(AddEntry(r, key, val), k) == Merged(Lookup(target, k), Lookup(src + [(key, val)], k))
  {
    var v := if Lookup(r, key).Some? then Lookup(r, key).value + val else val;
    assert AddEntry(r, key, val) == Put(r, key, v);
    PutLookup(r, key, v, k);
    LookupAppend(src, key, val, k);
    if k == key {
      LookupKeys(src, k);
      assert Lookup(r, k) == Lookup(target, k);
    }
  }

  lemma AddEntryKeys(r: Dict, target: Dict, src: Dict, key: string, val: real)
    requires key !in Keys(src)
    requires Lookup(r, key) == Merged(Lookup(target, key), Lookup(src, key))
    requires Keys(r) == Keys(target) + NewKeys(Keys(src), Keys(target))
    ensures Keys(AddEntry(r, key, val)) == Keys(target) + NewKeys(Keys(src + [(key, val)]), Keys(target))
  {
    var v := if Lookup(r, key).Some? then Lookup(r, key).value + val else val;
    assert AddEntry(r, key, val) == Put(r, key, v);
    PutKeys(r, key, v);
    KeysSnoc(src, key, val);
    NewKeysSnoc(Keys(src), key, Keys(target));
    LookupKeys(src, key);
    LookupKeys(r, key);
    LookupKeys(target, key);
    if key !in Keys(target) {
      AppendAssocKeys(Keys(target), NewKeys(Keys(src), Keys(target)), [key]);
    }
  }

  lemma KeysSnoc(d: Dict, key: string, val: real)
    ensures Keys(d + [(key, val)]) == Keys(d) + [key]
  {
  }

  lemma NewKeysSnoc(ks: seq<string>, key: string, prior: seq<string>)
    ensures NewKeys(ks + [key], prior) == NewKeys(ks, prior) + (if key in prior then [] else [key])
  {
    assert (ks + [key])[..|ks|] == ks;
  }

  lemma AppendAssocKeys(a: seq<string>, b: seq<string>, c: seq<string>)
    ensures a + (b + c) == a + b + c
  {
  }

  lemma AddEntryStep(r: Dict, target: Dict, src: Dict, key: string, val: real)
    requires DistinctKeys(r) && key !in Keys(src)
    requires forall k :: Lookup(r, k) == Merged(Lookup(target, k), Lookup(src, k))
    requires Keys(r) == Keys(target) + NewKeys(Keys(src), Keys(target))
    ensures DistinctKeys(AddEntry(r, key, val))
    ensures forall k :: Lookup(AddEntry(r, key, val), k) == Merged(Lookup(target, k), Lookup(src + [(key, val)], k))
    ensures Keys(AddEntry(r, key, val)) == Keys(target) + NewKeys(Keys(src + [(key, val)]), Keys(target))
  {
    var v := if Lookup(r, key).Some? then Lookup(r, key).value + val else val;
    assert AddEntry(r, key, val) == Put(r, key, v);
    PutDistinct(r, key, v);
    forall k ensures Lookup(AddEntry(r, key, val), k) == Merged(Lookup(target, k), Lookup(src + [(key, val)], k)) {
      AddEntryLookup(r, target, src, key, val, k);
    }
    AddEntryKeys(r, target, src, key, val);
  }

  /**
   * _update_dict: every key of source is added into target (summed when present,
   * inserted after the existing keys otherwise); the keys only in target keep their values.
   */
  method UpdateDict(target: Dict, source: Dict) returns (r: Dict)
    requires DistinctKeys(target) && DistinctKeys(source)
    ensures DistinctKeys(r)
    ensures forall k :: Lookup(r, k) == Merged(Lookup(target, k), Lookup(source, k))
    ensures Keys(r) == Keys(target) + NewKeys(Keys(source), Keys(target))
  {
    r := target;
    var i := 0;
    while i < |source|
      invariant 0 <= i <= |source|
      invariant DistinctKeys(r)
      invariant forall k :: Lookup(r, k) == Merged(Lookup(target, k), Lookup(source[..i], k))
      invariant Keys(r) == Keys(target) + NewKeys(Keys(source[..i]), Keys(target))
    {
      var (key, val) := source[i];
      assert source[..i + 1] == source[..i] + [(key, val)];
      assert key !in Keys(source[..i]) by {
        assert forall j | 0 <= j < i :: source[j].0 != source[i].0;
      }
      AddEntryStep(r, target, source[..i], key, val);
      r := AddEntry(r, key, val);
      i := i + 1;
    }
    assert source[..i] == source;
  }

  // ---------------------------------------------------------------------------
  // The formula pattern ([A-Z][a-z]?)([0-9.]*)|\[(.*?)\]([0-9]+) and re.findall over it

  /** One match: an element with its amount text, or a bracketed group with its count text. */
  datatype Component = Element(symbol: string, amount: string) | Molecule(group: string, count: string)

  predicate IsAmountChar(c: char) { IsDigit(c) || c == '.' }

  predicate IsSymbol(t: string) {
    (|t| == 1 || |t| == 2) && IsAsciiUpper(t[0]) && (|t| == 2 ==> IsAsciiLower(t[1]))
  }

  /** What findall can return for a formula s. */
  predicate ComponentOf(c: Component, s: string) {
    match c
    case Element(symbol, amount) =>
      IsSymbol(symbol) && forall k | 0 <= k < |amount| :: IsAmountChar(amount[k])
    case Molecule(group, count) => |group| < |s| && count != [] && AllDigits(count)
  }

  function AmountEnd(s: string, i: nat): (r: nat)
    requires i <= |s|
    ensures i <= r <= |s| && forall k | i <= k < r :: IsAmountChar(s[k])
    decreases |s| - i
  {
    if i < |s| && IsAmountChar(s[i]) then AmountEnd(s, i + 1) else i
  }

  function DigitsEnd(s: string, i: nat): (r: nat)
    requires i <= |s|
    ensures i <= r <= |s| && forall k | i <= k < r :: IsDigit(s[k])
    ensures i < |s| && IsDigit(s[i]) ==> i < r
    decreases |s| - i
  {
    if i < |s| && IsDigit(s[i]) then DigitsEnd(s, i + 1) else i
  }

  /** The first alternative at i; the lower-case letter and the amount are taken greedily. */
  function ElementAt(s: string, i: nat): (r: Option<(Component, nat)>)
    requires i <= |s|
    ensures r.Some? ==> i < r.value.1 <= |s| && ComponentOf(r.value.0, s)
  {
    if i < |s| && IsAsciiUpper(s[i]) then
      var j := if i + 1 < |s| && IsAsciiLower(s[i + 1]) then i + 2 else i + 1;
      var e := AmountEnd(s, j);
      assert forall k | 0 <= k < e - j :: s[j..e][k] == s[j + k];
      Some((Element(s[i..j], s[j..e]), e))
    else None
  }

  /**
   * The lazy group of the second alternative, searched from j: the first ']' that is
   * followed by a digit; '.' does not match a line break, so the search stops at one.
   */
  function CloseAt(s: string, j: nat): (r: Option<nat>)
    requires j <= |s|
    ensures r.Some? ==> j <= r.value && r.value + 1 < |s| && IsDigit(s[r.value + 1])
    decreases |s| - j
  {
    if j == |s| then None
    else if s[j] == ']' && j + 1 < |s| && IsDigit(s[j + 1]) then Some(j)
    else if s[j] == '\n' then None
    else CloseAt(s, j + 1)
  }

  /** The second alternative at i. */
  function MoleculeAt(s: string, i: nat): (r: Option<(Component, nat)>)
    requires i <= |s|
    ensures r.Some? ==> i < r.value.1 <= |s| && ComponentOf(r.value.0, s)
  {
    if i < |s| && s[i] == '[' then
      match CloseAt(s, i + 1)
      case None => None
      case Some(j) =>
        var b := j + 1;
        var e := DigitsEnd(s, b);
        assert forall k | 0 <= k < e - b :: s[b..e][k] == s[b + k];
        Some((Molecule(s[i + 1..j], s[b..e]), e))
    else None
  }

  /** findall from position i: a match is taken where one starts, otherwise the scan moves on. */
  function FindAllFrom(s: string, i: nat): (r: seq<Component>)
    requires i <= |s|
    ensures forall c | c in r :: ComponentOf(c, s)
    decreases |s| - i
  {
    if i == |s| then []
    else match ElementAt(s, i)
      case Some((c, e)) => [c] + FindAllFrom(s, e)
      case None =>
        match MoleculeAt(s, i)
        case Some((c, e)) => [c] + FindAllFrom(s, e)
        case None => FindAllFrom(s, i + 1)
  }

  function FindAll(s: string): (r: seq<Component>)
    ensures forall c | c in r :: ComponentOf(c, s)
  {
    FindAllFrom(s, 0)
  }

  // ---------------------------------------------------------------------------
  // Amounts

  function DotIndex(a: string): (r: Option<nat>)
    ensures r.Some? ==> r.value < |a| && a[r.value] == '.' && forall k | 0 <= k < r.value :: a[k] != '.'
    ensures r.None? ==> forall k | 0 <= k < |a| :: a[k] != '.'
  {
    if a == [] then None
    else if a[0] == '.' then Some(0)
    else match DotIndex(a[1..])
      case None => None
      case Some(d) => Some(d + 1)
  }

  /** float(text) for a non-empty run of digits and dots; None where Python raises ValueError. */
  function ParseDecimal(a: string): (r: Option<real>)
    requires a != [] && forall k | 0 <= k < |a| :: IsAmountChar(a[k])
    ensures r.Some? ==> r.value >= 0.0
    ensures AllDigits(a) ==> r == Some(DigitsValue(a) as real)
  {
    match DotIndex(a)
    case None =>
      assert AllDigits(a) by { forall k | 0 <= k < |a| ensures IsDigit(a[k]) { assert a[k] != '.' && IsAmountChar(a[k]); } }
      Some(DigitsValue(a) as real)
    case Some(d) =>
      var whole := a[..d];
      var fraction := a[d + 1..];
      if DotIndex(fraction).Some? || (whole == [] && fraction == []) then None
      else
        assert AllDigits(whole) by {
          forall k | 0 <= k < |whole| ensures IsDigit(whole[k]) { assert whole[k] == a[k] && a[k] != '.' && IsAmountChar(a[k]); }
        }
        assert AllDigits(fraction) by {
          forall k | 0 <= k < |fraction| ensures IsDigit(fraction[k]) {
            assert fraction[k] == a[d + 1 + k] && fraction[k] != '.' && IsAmountChar(a[d + 1 + k]);
          }
        }
        Some(DigitsValue(whole) as real + DigitsValue(fraction) as real / Pow10(|fraction|) as real)
  }

  /** An element's amount: 1.0 when the text is empty. */
  function ElementAmount(a: string): (r: Option<real>)
    requires forall k | 0 <= k < |a| :: IsAmountChar(a[k])
    ensures a == [] ==> r == Some(1.0)
  {
    if a == [] then Some(1.0) else ParseDecimal(a)
  }

  /** Every element amount in s (and in its nested groups) can be read as a number. */
  predicate Valid(s: string)
    decreases |s|, 1
  {
    ValidIn(FindAll(s), s)
  }

  predicate ValidIn(cs: seq<Component>, s: string)
    requires forall c | c in cs :: ComponentOf(c, s)
    decreases |s|, 0, |cs|
  {
    cs == [] ||
    (assert cs[|cs| - 1] in cs;
     ValidIn(cs[..|cs| - 1], s) && ValidComponent(cs[|cs| - 1], s))
  }

  predicate ValidComponent(c: Component, s: string)
    requires ComponentOf(c, s)
    decreases |s|, 0, 0
  {
    match c
    case Element(_, a) => ElementAmount(a).Some?
    case Molecule(g, _) => g == [] || Valid(g)
  }

  /** The distinct element symbols of s in order of first appearance: the keys _components produces. */
  function Symbols(s: string): seq<string>
    decreases |s|, 1
  {
    SymbolsIn(FindAll(s), s)
  }

  function SymbolsIn(cs: seq<Component>, s: string): seq<string>
    requires forall c | c in cs :: ComponentOf(c, s)
    decreases |s|, 0, |cs|
  {
    if cs == [] then []
    else
      var prior := SymbolsIn(cs[..|cs| - 1], s);
      assert cs[|cs| - 1] in cs;
      prior + NewSymbols(cs[|cs| - 1], s, prior)
  }

  /** The symbols a match adds to those seen before it. */
  function NewSymbols(c: Component, s: string, prior: seq<string>): seq<string>
    requires ComponentOf(c, s)
    decreases |s|, 0, 0
  {
    match c
    case Element(e, _) => NewKeys([e], prior)
    case Molecule(g, _) => if g == [] then [] else NewKeys(Symbols(g), prior)
  }

  /**
   * The reference count of symbol k in s: the sum over the matches of each amount times
   * the multiplier, a group's multiplier being its count times the outer one.
   */
  function Amount(s: string, k: string, m: real): real
    decreases |s|, 1
  {
    AmountIn(FindAll(s), s, k, m)
  }

  function AmountIn(cs: seq<Component>, s: string, k: string, m: real): real
    requires forall c | c in cs :: ComponentOf(c, s)
    decreases |s|, 0, |cs|
  {
    if cs == [] then 0.0
    else
      assert cs[|cs| - 1] in cs;
      AmountIn(cs[..|cs| - 1], s, k, m) + Contribution(cs[|cs| - 1], s, k, m)
  }

  /** What one match adds to the count of k. */
  function Contribution(c: Component, s: string, k: string, m: real): real
    requires ComponentOf(c, s)
    decreases |s|, 0, 0
  {
    match c
    case Element(e, a) => if e == k then ElementAmount(a).GetOr(0.0) * m else 0.0
    case Molecule(g, n) => if g == [] then 0.0 else Amount(g, k, GroupMultiplier(c, m))
  }

  /** float(amount_m) * multiplier: the multiplier inside a bracketed group. */
  function GroupMultiplier(c: Component, m: real): real
    requires c.Molecule? && AllDigits(c.count)
  {
    DigitsValue(c.count) as real * m
  }

  lemma InvalidAt(cs: seq<Component>, s: string, i: nat)
    requires forall c | c in cs :: ComponentOf(c, s)
    requires i < |cs| && (cs[i] in cs ==> !ValidComponent(cs[i], s))
    ensures !ValidIn(cs, s)
  {
    var pre := cs[..i + 1];
    assert cs[i] in cs;
    assert pre[..|pre| - 1] == cs[..i] && pre[|pre| - 1] == cs[i];
    assert forall c | c in pre :: c in cs;
    InvalidPrefix(cs, s, i + 1);
  }

  /** A match whose amount cannot be read makes the whole formula invalid. */
  lemma {:induction false} InvalidPrefix(cs: seq<Component>, s: string, n: nat)
    requires forall c | c in cs :: ComponentOf(c, s)
    requires n <= |cs| && !ValidIn(cs[..n], s)
    ensures !ValidIn(cs, s)
    decreases |cs|
  {
    if n < |cs| {
      assert cs[..|cs| - 1][..n] == cs[..n];
      InvalidPrefix(cs[..|cs| - 1], s, n);
    } else {
      assert cs[..n] == cs;
    }
  }

  /** A symbol that s never mentions counts zero. */
  lemma {:induction false} AmountUnmentioned(s: string, k: string, m: real)
    requires k !in Symbols(s)
    ensures Amount(s, k, m) == 0.0
    decreases |s|, 1
  {
    AmountInUnmentioned(FindAll(s), s, k, m);
  }

  lemma {:induction false} AmountInUnmentioned(cs: seq<Component>, s: string, k: string, m: real)
    requires forall c | c in cs :: ComponentOf(c, s)
    requires k !in SymbolsIn(cs, s)
    ensures AmountIn(cs, s, k, m) == 0.0
    decreases |s|, 0, |cs|
  {
    if cs != [] {
      var last := cs[|cs| - 1];
      assert last in cs;
      var prior := SymbolsIn(cs[..|cs| - 1], s);
      assert SymbolsIn(cs, s) == prior + NewSymbols(last, s, prior);
      AmountInUnmentioned(cs[..|cs| - 1], s, k, m);
      match last {
        case Element(e, _) =>
          assert k != e;
        case Molecule(g, _) =>
          if g != [] {
            assert k !in prior && k !in NewKeys(Symbols(g), prior);
            AmountUnmentioned(g, k, GroupMultiplier(last, m));
          }
      }
    }
  }

  /** The loop invariant of _components: d holds the reference counts of the matches cs. */
  predicate CountsAgree(d: Dict, cs: seq<Component>, s: string, m: real)
    requires forall c | c in cs :: ComponentOf(c, s)
  {
    DistinctKeys(d) && Keys(d) == SymbolsIn(cs, s)
    && forall k | k in Keys(d) :: Lookup(d, k) == Some(AmountIn(cs, s, k, m))
  }

  lemma ComponentStepAt(cs: seq<Component>, s: string, i: nat, m: real, acc: Dict, src: Dict, next: Dict, k: string)
    requires forall c | c in cs :: ComponentOf(c, s)
    requires i < |cs|
    requires Keys(acc) == SymbolsIn(cs[..i], s)
    requires k in Keys(acc) ==> Lookup(acc, k) == Some(AmountIn(cs[..i], s, k, m))
    requires k in Keys(src) ==> Lookup(src, k) == Some(Contribution(cs[i], s, k, m))
    requires k !in Keys(src) ==> Contribution(cs[i], s, k, m) == 0.0
    requires Lookup(next, k) == Merged(Lookup(acc, k), Lookup(src, k))
    requires k in Keys(next)
    ensures Lookup(next, k) == Some(AmountIn(cs[..i + 1], s, k, m))
  {
    AmountInStep(cs, s, i, k, m);
    LookupKeys(acc, k);
    LookupKeys(src, k);
    LookupKeys(next, k);
    if k !in Keys(acc) {
      AmountInUnmentioned(cs[..i], s, k, m);
    }
    MergedCounts(Lookup(acc, k), Lookup(src, k), AmountIn(cs[..i], s, k, m), Contribution(cs[i], s, k, m));
  }

  /** Merging a count a (absent for zero) with a contribution b (absent for zero) adds them. */
  lemma MergedCounts(a: Option<real>, b: Option<real>, x: real, y: real)
    requires (a.Some? ==> a == Some(x)) && (a.None? ==> x == 0.0)
    requires (b.Some? ==> b == Some(y)) && (b.None? ==> y == 0.0)
    requires Merged(a, b).Some?
    ensures Merged(a, b) == Some(x + y)
  {
  }

  /** The count of k over one more match adds that match's contribution. */
  lemma AmountInStep(cs: seq<Component>, s: string, i: nat, k: string, m: real)
    requires forall c | c in cs :: ComponentOf(c, s)
    requires i < |cs|
    ensures forall c | c in cs[..i] :: ComponentOf(c, s)
    ensures forall c | c in cs[..i + 1] :: ComponentOf(c, s)
    ensures AmountIn(cs[..i + 1], s, k, m) == AmountIn(cs[..i], s, k, m) + Contribution(cs[i], s, k, m)
  {
    var pre := cs[..i + 1];
    assert pre[..|pre| - 1] == cs[..i] && pre[|pre| - 1] == cs[i];
    assert forall c | c in pre :: c in cs;
    assert forall c | c in cs[..i] :: c in cs;
  }

  /** One turn of the _components loop keeps the dictionary equal to the reference counts. */
  lemma ComponentStep(cs: seq<Component>, s: string, i: nat, m: real, acc: Dict, src: Dict, next: Dict)
    requires forall c | c in cs :: ComponentOf(c, s)
    requires i < |cs|
    requires Keys(acc) == SymbolsIn(cs[..i], s)
    requires forall k | k in Keys(acc) :: Lookup(acc, k) == Some(AmountIn(cs[..i], s, k, m))
    requires NewKeys(Keys(src), Keys(acc)) == NewSymbols(cs[i], s, Keys(acc))
    requires forall k | k in Keys(src) :: Lookup(src, k) == Some(Contribution(cs[i], s, k, m))
    requires forall k | k !in Keys(src) :: Contribution(cs[i], s, k, m) == 0.0
    requires forall k :: Lookup(next, k) == Merged(Lookup(acc, k), Lookup(src, k))
    requires Keys(next) == Keys(acc) + NewKeys(Keys(src), Keys(acc))
    ensures Keys(next) == SymbolsIn(cs[..i + 1], s)
    ensures forall k | k in Keys(next) :: Lookup(next, k) == Some(AmountIn(cs[..i + 1], s, k, m))
  {
    var pre := cs[..i + 1];
    assert pre[..|pre| - 1] == cs[..i] && pre[|pre| - 1] == cs[i];
    assert forall c | c in pre :: c in cs;
    assert SymbolsIn(pre, s) == SymbolsIn(cs[..i], s) + NewSymbols(cs[i], s, SymbolsIn(cs[..i], s));
    forall k | k in Keys(next) ensures Lookup(next, k) == Some(AmountIn(pre, s, k, m)) {
      ComponentStepAt(cs, s, i, m, acc, src, next, k);
    }
  }

  lemma ElementStepFacts(c: Component, s: string, m: real, v: real, w: real, src: Dict, prior: seq<string>)
    requires ComponentOf(c, s) && c.Element? && ElementAmount(c.amount) == Some(v)
    requires w == v * m && src == [(c.symbol, w)]
    ensures DistinctKeys(src) && Keys(src) == [c.symbol]
    ensures forall k | k in Keys(src) :: Lookup(src, k) == Some(Contribution(c, s, k, m))
    ensures forall k | k !in Keys(src) :: Contribution(c, s, k, m) == 0.0
    ensures NewKeys(Keys(src), prior) == NewSymbols(c, s, prior)
  {
    assert Keys(src) == [c.symbol];
    assert Lookup(src, c.symbol) == Some(w);
    assert Contribution(c, s, c.symbol, m) == w;
  }

  lemma MoleculeStepFacts(c: Component, s: string, m: real, sub: Dict, prior: seq<string>)
    requires ComponentOf(c, s) && c.Molecule? && c.group != []
    requires Keys(sub) == Symbols(c.group)
    requires forall k | k in Keys(sub) :: Lookup(sub, k) == Some(Amount(c.group, k, GroupMultiplier(c, m)))
    ensures forall k | k in Keys(sub) :: Lookup(sub, k) == Some(Contribution(c, s, k, m))
    ensures forall k | k !in Keys(sub) :: Contribution(c, s, k, m) == 0.0
    ensures NewKeys(Keys(sub), prior) == NewSymbols(c, s, prior)
  {
    forall k | k !in Keys(sub) ensures Contribution(c, s, k, m) == 0.0 {
      AmountUnmentioned(c.group, k, GroupMultiplier(c, m));
    }
  }

  /** The loop invariant of _components after the turn for an element with amount v. */
  lemma ElementTurn(cs: seq<Component>, s: string, i: nat, m: real, acc: Dict, v: real, src: Dict, next: Dict)
    requires forall c | c in cs :: ComponentOf(c, s)
    requires i < |cs| && ComponentOf(cs[i], s) && cs[i].Element? && ElementAmount(cs[i].amount) == Some(v)
    requires ValidIn(cs[..i], s)
    requires CountsAgree(acc, cs[..i], s, m)
    requires src == [(cs[i].symbol, v * m)]
    requires forall k :: Lookup(next, k) == Merged(Lookup(acc, k), Lookup(src, k))
    requires Keys(next) == Keys(acc) + NewKeys(Keys(src), Keys(acc))
    requires DistinctKeys(next)
    ensures ValidIn(cs[..i + 1], s)
    ensures CountsAgree(next, cs[..i + 1], s, m)
  {
    assert cs[i] in cs;
    ElementStepFacts(cs[i], s, m, v, v * m, src, Keys(acc));
    ComponentStep(cs, s, i, m, acc, src, next);
    ValidTurn(cs, s, i);
  }

  /** The loop invariant of _components after the turn for a non-empty group with counts sub. */
  lemma MoleculeTurn(cs: seq<Component>, s: string, i: nat, m: real, acc: Dict, sub: Dict, next: Dict)
    requires forall c | c in cs :: ComponentOf(c, s)
    requires i < |cs| && ComponentOf(cs[i], s) && cs[i].Molecule? && cs[i].group != [] && Valid(cs[i].group)
    requires ValidIn(cs[..i], s)
    requires CountsAgree(acc, cs[..i], s, m)
    requires Keys(sub) == Symbols(cs[i].group)
    requires forall k | k in Keys(sub) ::
      Lookup(sub, k) == Some(Amount(cs[i].group, k, GroupMultiplier(cs[i], m)))
    requires forall k :: Lookup(next, k) == Merged(Lookup(acc, k), Lookup(sub, k))
    requires Keys(next) == Keys(acc) + NewKeys(Keys(sub), Keys(acc))
    requires DistinctKeys(next)
    ensures ValidIn(cs[..i + 1], s)
    ensures CountsAgree(next, cs[..i + 1], s, m)
  {
    assert cs[i] in cs;
    MoleculeStepFacts(cs[i], s, m, sub, Keys(acc));
    ComponentStep(cs, s, i, m, acc, sub, next);
    ValidTurn(cs, s, i);
  }

  lemma ValidTurn(cs: seq<Component>, s: string, i: nat)
    requires forall c | c in cs :: ComponentOf(c, s)
    requires i < |cs| && ValidIn(cs[..i], s)
    requires cs[i] in cs ==> ValidComponent(cs[i], s)
    ensures ValidIn(cs[..i + 1], s)
  {
    var pre := cs[..i + 1];
    assert cs[i] in cs;
    assert pre[..|pre| - 1] == cs[..i] && pre[|pre| - 1] == cs[i];
    assert forall c | c in pre :: c in cs;
  }

  /** A bracketed group with nothing inside adds nothing. */
  lemma NoMatchStep(cs: seq<Component>, s: string, i: nat, m: real, acc: Dict)
    requires forall c | c in cs :: ComponentOf(c, s)
    requires i < |cs| && cs[i].Molecule? && cs[i].group == []
    requires CountsAgree(acc, cs[..i], s, m)
    ensures CountsAgree(acc, cs[..i + 1], s, m)
  {
    var pre := cs[..i + 1];
    assert cs[i] in cs;
    assert pre[..|pre| - 1] == cs[..i] && pre[|pre| - 1] == cs[i];
    assert forall c | c in pre :: c in cs;
    assert SymbolsIn(pre, s) == SymbolsIn(cs[..i], s);
    assert forall k :: AmountIn(pre, s, k, m) == AmountIn(cs[..i], s, k, m);
  }

  /**
   * _components: the dictionary from each element symbol of the formula (in order of
   * first appearance) to its count, nested groups multiplied by their count; None where
   * an amount cannot be read as a number.
   */
  method Components(formula: string, multiplier: real) returns (r: Option<Dict>)
    ensures r.None? <==> !Valid(formula)
    ensures r.Some? ==> DistinctKeys(r.value) && Keys(r.value) == Symbols(formula)
    ensures r.Some? ==> forall k | k in Keys(r.value) :: Lookup(r.value, k) == Some(Amount(formula, k, multiplier))
    decreases |formula|, 3
  {
    r := ComponentsOf(FindAll(formula), formula, multiplier);
  }

  /** The loop of _components over the matches of formula. */
  method ComponentsOf(components: seq<Component>, formula: string, multiplier: real) returns (r: Option<Dict>)
    requires forall c | c in components :: ComponentOf(c, formula)
    ensures r.None? <==> !ValidIn(components, formula)
    ensures r.Some? ==> CountsAgree(r.value, components, formula, multiplier)
    decreases |formula|, 2
  {
    var symbolAmount: Dict := [];
    var i := 0;
    while i < |components|
      invariant 0 <= i <= |components|
      invariant forall c | c in components[..i] :: ComponentOf(c, formula)
      invariant ValidIn(components[..i], formula)
      invariant CountsAgree(symbolAmount, components[..i], formula, multiplier)
    {
      var next := ComponentTurn(components, formula, multiplier, i, symbolAmount);
      if next.None? {
        return None;
      }
      symbolAmount := next.value;
      i := i + 1;
    }
    assert components[..i] == components;
    r := Some(symbolAmount);
  }

  /**
   * One turn of that loop: the element's amount, or the group's components times its
   * count, merged into the dictionary; None where an amount cannot be read.
   */
  method ComponentTurn(components: seq<Component>, formula: string, multiplier: real, i: nat, symbolAmount: Dict)
    returns (r: Option<Dict>)
    requires forall c | c in components :: ComponentOf(c, formula)
    requires i < |components| && ValidIn(components[..i], formula)
    requires CountsAgree(symbolAmount, components[..i], formula, multiplier)
    ensures r.None? ==> !ValidIn(components, formula)
    ensures r.Some? ==> ValidIn(components[..i + 1], formula) && CountsAgree(r.value, components[..i + 1], formula, multiplier)
    decreases |formula|, 1
  {
    var c := components[i];
    if c.Element? {
      r := ElementTurnOf(components, formula, multiplier, i, symbolAmount);
    } else if c.group != [] {
      r := MoleculeTurnOf(components, formula, multiplier, i, symbolAmount);
    } else {
      NoMatchStep(components, formula, i, multiplier, symbolAmount);
      ValidTurn(components, formula, i);
      r := Some(symbolAmount);
    }
  }

  /** The turn for an element: its amount times the multiplier merged in. */
  method ElementTurnOf(components: seq<Component>, formula: string, multiplier: real, i: nat, symbolAmount: Dict)
    returns (r: Option<Dict>)
    requires forall c | c in components :: ComponentOf(c, formula)
    requires i < |components| && components[i].Element? && ValidIn(components[..i], formula)
    requires CountsAgree(symbolAmount, components[..i], formula, multiplier)
    ensures r.None? ==> !ValidIn(components, formula)
    ensures r.Some? ==> ValidIn(components[..i + 1], formula) && CountsAgree(r.value, components[..i + 1], formula, multiplier)
  {
    var c := components[i];
    assert c in components;
    var amount := ElementAmount(c.amount);
    if amount.None? {
      InvalidAt(components, formula, i);
      return None;
    }
    var v := amount.value;
    var src := [(c.symbol, v * multiplier)];
    assert DistinctKeys(src);
    var next := UpdateDict(symbolAmount, src);
    ElementTurn(components, formula, i, multiplier, symbolAmount, v, src, next);
    r := Some(next);
  }

  /** The turn for a non-empty group: its own components times its count merged in. */
  method MoleculeTurnOf(components: seq<Component>, formula: string, multiplier: real, i: nat, symbolAmount: Dict)
    returns (r: Option<Dict>)
    requires forall c | c in components :: ComponentOf(c, formula)
    requires i < |components| && components[i].Molecule? && components[i].group != []
    requires ValidIn(components[..i], formula)
    requires CountsAgree(symbolAmount, components[..i], formula, multiplier)
    ensures r.None? ==> !ValidIn(components, formula)
    ensures r.Some? ==> ValidIn(components[..i + 1], formula) && CountsAgree(r.value, components[..i + 1], formula, multiplier)
    decreases |formula|, 0
  {
    var c := components[i];
    assert c in components;
    var sub := Components(c.group, DigitsValue(c.count) as real * multiplier);
    assert DigitsValue(c.count) as real * multiplier == GroupMultiplier(c, multiplier);
    if sub.None? {
      InvalidAt(components, formula, i);
      return None;
    }
    var next := UpdateDict(symbolAmount, sub.value);
    MoleculeTurn(components, formula, i, multiplier, symbolAmount, sub.value, next);
    r := Some(next);
  }

  // ---------------------------------------------------------------------------
  // _normalize_formula

  /** sum(d.values()), added up from the left. */
  function Sum(d: Dict): real
  {
    if d == [] then 0.0 else Sum(d[..|d| - 1]) + d[|d| - 1].1
  }

  /** One "symbol + percentage" pair of the normalised formula. */
  type Entry = (string, int)

  /** Each sorted key with round(amount / total * 100). */
  function PercentEntries(ks: seq<string>, d: Dict, total: real): (r: seq<Entry>)
    requires total != 0.0
    ensures |r| == |ks| && forall i | 0 <= i < |ks| :: r[i].0 == ks[i]
  {
    if ks == [] then []
    else [(ks[0], RoundHalfEven(Lookup(d, ks[0]).GetOr(0.0) / total * 100.0))] + PercentEntries(ks[1..], d, total)
  }

  /** ''.join(f'{s}{n}' for s, n in entries). */
  function RenderEntries(es: seq<Entry>): string
  {
    if es == [] then "" else es[0].0 + IntToString(es[0].1) + RenderEntries(es[1..])
  }

  /**
   * The principal expression of _normalize_formula on the component dictionary; None where
   * the total is zero and a division by it would raise ZeroDivisionError.
   */
  function FormulaString(d: Dict): (r: Option<string>)
    ensures r.None? <==> d != [] && Sum(d) == 0.0
    ensures d == [] ==> r == Some("")
  {
    var total := Sum(d);
    if total == 0.0 then (if d == [] then Some("") else None)
    else Some(RenderEntries(PercentEntries(SortStrings(Keys(d)), d, total)))
  }

  /** Reads one entry at the front of t: a symbol, an optional '-' and digits; and where it ends. */
  function ReadEntry(t: string): (r: Option<(Entry, nat)>)
    ensures r.Some? ==> 0 < r.value.1 <= |t|
  {
    if t == [] || !IsAsciiUpper(t[0]) then None
    else
      var j := if 1 < |t| && IsAsciiLower(t[1]) then 2 else 1;
      var negative := j < |t| && t[j] == '-';
      var start := if negative then j + 1 else j;
      var e := DigitsEnd(t, start);
      if e == start then None
      else
        assert AllDigits(t[start..e]) by {
          forall k | 0 <= k < e - start ensures IsDigit(t[start..e][k]) { assert t[start..e][k] == t[start + k]; }
        }
        var n: int := DigitsValue(t[start..e]);
        Some(((t[..j], if negative then -n else n), e))
  }

  /** Reads a normalised formula back into its entries. */
  function ReadEntries(t: string): Option<seq<Entry>>
    decreases |t|
  {
    if t == [] then Some([])
    else match ReadEntry(t)
      case None => None
      case Some((en, e)) =>
        match ReadEntries(t[e..])
        case None => None
        case Some(rest) => Some([en] + rest)
  }

  lemma ReadLayout(t: string, sym: string, negative: bool, digits: string, rest: string)
    requires IsSymbol(sym) && digits != [] && AllDigits(digits)
    requires rest == [] || IsAsciiUpper(rest[0])
    requires t == sym + (if negative then "-" else "") + digits + rest
    ensures var n: int := DigitsValue(digits);
      ReadEntry(t) == Some(((sym, if negative then -n else n), |t| - |rest|))
  {
    var sign := if negative then "-" else "";
    var j := |sym|;
    assert t[..j] == sym;
    assert t[j] == (sign + digits)[0];
    assert j == if 1 < |t| && IsAsciiLower(t[1]) then 2 else 1;
    assert negative == (j < |t| && t[j] == '-');
    var start := j + |sign|;
    var e := start + |digits|;
    assert forall k | 0 <= k < |digits| :: t[start + k] == digits[k];
    assert t[start..e] == digits;
    assert e < |t| ==> t[e] == rest[0];
    DigitsEndAt(t, start, e);
  }

  lemma ReadOneEntry(sym: string, v: int, rest: string)
    requires IsSymbol(sym)
    requires rest == [] || IsAsciiUpper(rest[0])
    ensures ReadEntry(sym + IntToString(v) + rest) == Some(((sym, v), |sym + IntToString(v)|))
  {
    var m := if v < 0 then -v else v;
    var d := NatToString(m);
    DigitsValueOfNatToString(m);
    var t := sym + IntToString(v) + rest;
    var sign := if v < 0 then "-" else "";
    assert IntToString(v) == sign + d;
    SignedSplit(sym, sign, d, rest, IntToString(v));
    ReadLayout(t, sym, v < 0, d, rest);
  }

  lemma SignedSplit(sym: string, sign: string, d: string, rest: string, text: string)
    requires text == sign + d
    ensures sym + text + rest == sym + sign + d + rest
  {
  }

  lemma {:induction false} DigitsEndAt(t: string, start: nat, e: nat)
    requires start <= e <= |t| && forall k | start <= k < e :: IsDigit(t[k])
    requires e < |t| ==> !IsDigit(t[e])
    ensures DigitsEnd(t, start) == e
    decreases e - start
  {
    if start < e {
      DigitsEndAt(t, start + 1, e);
    }
  }

  /** The rendered formula reads back as exactly its entries: symbols and numbers do not run together. */
  lemma {:induction false} ReadRender(es: seq<Entry>)
    requires forall i | 0 <= i < |es| :: IsSymbol(es[i].0)
    ensures ReadEntries(RenderEntries(es)) == Some(es)
  {
    if es != [] {
      ReadRender(es[1..]);
      var rest := RenderEntries(es[1..]);
      if es[1..] != [] {
        assert rest == es[1].0 + IntToString(es[1].1) + RenderEntries(es[2..]);
        assert rest[0] == es[1].0[0];
      }
      ReadOneEntry(es[0].0, es[0].1, rest);
      var t := RenderEntries(es);
      assert t == es[0].0 + IntToString(es[0].1) + rest;
      assert t[|es[0].0 + IntToString(es[0].1)|..] == rest;
      assert [es[0]] + es[1..] == es;
    }
  }

  /** Every symbol of a formula has the shape of the pattern's first group. */
  lemma {:induction false} SymbolsShape(s: string)
    ensures forall k | k in Symbols(s) :: IsSymbol(k)
    decreases |s|, 1
  {
    SymbolsInShape(FindAll(s), s);
  }

  lemma {:induction false} SymbolsInShape(cs: seq<Component>, s: string)
    requires forall c | c in cs :: ComponentOf(c, s)
    ensures forall k | k in SymbolsIn(cs, s) :: IsSymbol(k)
    decreases |s|, 0, |cs|
  {
    if cs != [] {
      var last := cs[|cs| - 1];
      assert last in cs;
      var prior := SymbolsIn(cs[..|cs| - 1], s);
      SymbolsInShape(cs[..|cs| - 1], s);
      assert SymbolsIn(cs, s) == prior + NewSymbols(last, s, prior);
      if last.Molecule? && last.group != [] {
        SymbolsShape(last.group);
      }
    }
  }

  /** The total of the reference counts over the given symbols. */
  function SumAmounts(ks: seq<string>, s: string): real
  {
    if ks == [] then 0.0 else SumAmounts(ks[..|ks| - 1], s) + Amount(s, ks[|ks| - 1], 1.0)
  }

  function PercentsOf(ks: seq<string>, s: string, total: real): (r: seq<Entry>)
    requires total != 0.0
    ensures |r| == |ks| && forall i | 0 <= i < |ks| :: r[i].0 == ks[i]
  {
    if ks == [] then []
    else [(ks[0], RoundHalfEven(Amount(s, ks[0], 1.0) / total * 100.0))] + PercentsOf(ks[1..], s, total)
  }

  /**
   * The normalised formula of s by the reference counts: its symbols in sorted order, each
   * with the nearest integer to its share of the total in percent; None for an unreadable
   * amount or a zero total.
   */
  function NormalizedEntries(s: string): Option<seq<Entry>>
  {
    if !Valid(s) then None
    else
      var total := SumAmounts(Symbols(s), s);
      if total == 0.0 then (if Symbols(s) == [] then Some([]) else None)
      else Some(PercentsOf(SortStrings(Symbols(s)), s, total))
  }

  lemma LookupAt(d: Dict, i: nat)
    requires DistinctKeys(d) && i < |d|
    ensures Lookup(d, d[i].0) == Some(d[i].1)
  {
    if i > 0 {
      assert d[0].0 != d[i].0;
      assert d[1..][i - 1] == d[i];
      LookupAt(d[1..], i - 1);
    }
  }

  lemma {:induction false} SumMatches(d: Dict, s: string, n: nat)
    requires DistinctKeys(d) && n <= |d|
    requires forall k | k in Keys(d) :: Lookup(d, k) == Some(Amount(s, k, 1.0))
    ensures Sum(d[..n]) == SumAmounts(Keys(d)[..n], s)
  {
    if n > 0 {
      SumMatches(d, s, n - 1);
      assert d[..n][..n - 1] == d[..n - 1];
      assert Keys(d)[..n][..n - 1] == Keys(d)[..n - 1];
      LookupAt(d, n - 1);
      assert d[n - 1].0 in Keys(d);
    }
  }

  lemma {:induction false} PercentsMatch(ks: seq<string>, d: Dict, s: string, total: real)
    requires total != 0.0
    requires forall k | k in ks :: Lookup(d, k) == Some(Amount(s, k, 1.0))
    ensures PercentEntries(ks, d, total) == PercentsOf(ks, s, total)
  {
    if ks != [] {
      assert ks[0] in ks;
      PercentsMatch(ks[1..], d, s, total);
    }
  }

  /**
   * _normalize_formula: the formula of percentages reads back as the normalised entries
   * of the reference counts, and fails exactly where they are undefined.
   */
  method NormalizeFormula(formula: string) returns (r: Option<string>)
    ensures r.None? <==> NormalizedEntries(formula).None?
    ensures r.Some? ==> ReadEntries(r.value) == NormalizedEntries(formula)
  {
    var symbolAmount := Components(formula, 1.0);
    if symbolAmount.None? {
      return None;
    }
    FormulaStringReads(formula, symbolAmount.value);
    r := FormulaString(symbolAmount.value);
  }

  /** The total of the component dictionary is the total of the reference counts. */
  lemma TotalMatches(s: string, d: Dict)
    requires DistinctKeys(d) && Keys(d) == Symbols(s)
    requires forall k | k in Keys(d) :: Lookup(d, k) == Some(Amount(s, k, 1.0))
    ensures Sum(d) == SumAmounts(Symbols(s), s)
    ensures d == [] <==> Symbols(s) == []
  {
    SumMatches(d, s, |d|);
    assert d[..|d|] == d && Keys(d)[..|d|] == Keys(d);
  }

  /** With a non-zero total, the rendered percentages read back as the normalised entries. */
  lemma RenderedPercents(s: string, d: Dict)
    requires Valid(s) && DistinctKeys(d) && Keys(d) == Symbols(s)
    requires forall k | k in Keys(d) :: Lookup(d, k) == Some(Amount(s, k, 1.0))
    requires Sum(d) != 0.0 && Sum(d) == SumAmounts(Symbols(s), s)
    ensures ReadEntries(RenderEntries(PercentEntries(SortStrings(Keys(d)), d, Sum(d))))
      == NormalizedEntries(s)
  {
    var total := Sum(d);
    var ks := SortStrings(Keys(d));
    forall k | k in ks ensures Lookup(d, k) == Some(Amount(s, k, 1.0)) {
      assert k in multiset(ks);
    }
    PercentsMatch(ks, d, s, total);
    SymbolsShape(s);
    var es := PercentEntries(ks, d, total);
    forall i | 0 <= i < |es| ensures IsSymbol(es[i].0) {
      assert es[i].0 == ks[i] && ks[i] in multiset(ks);
    }
    ReadRender(es);
  }

  /** FormulaString on the component counts of a readable formula meets NormalizeFormula's contract. */
  lemma FormulaStringReads(s: string, d: Dict)
    requires Valid(s) && DistinctKeys(d) && Keys(d) == Symbols(s)
    requires forall k | k in Keys(d) :: Lookup(d, k) == Some(Amount(s, k, 1.0))
    ensures FormulaString(d).None? <==> NormalizedEntries(s).None?
    ensures FormulaString(d).Some? ==> ReadEntries(FormulaString(d).value) == NormalizedEntries(s)
  {
    TotalMatches(s, d);
    if Sum(d) != 0.0 {
      RenderedPercents(s, d);
    }
  }

  predicate Distinct(ks: seq<string>) {
    forall i, j | 0 <= i < j < |ks| :: ks[i] != ks[j]
  }

  lemma ConcatDistinct(a: seq<string>, b: seq<string>)
    requires Distinct(a) && Distinct(b) && forall k | k in b :: k !in a
    ensures Distinct(a + b)
  {
    forall i, j | 0 <= i < j < |a + b| ensures (a + b)[i] != (a + b)[j] {
      if i < |a| && j >= |a| {
        assert (a + b)[j] == b[j - |a|];
        assert b[j - |a|] in b;
      }
    }
  }

  lemma {:induction false} NewKeysDistinct(ks: seq<string>, prior: seq<string>)
    requires Distinct(ks)
    ensures Distinct(NewKeys(ks, prior))
  {
    if ks != [] {
      var pre := ks[..|ks| - 1];
      var last := ks[|ks| - 1];
      NewKeysDistinct(pre, prior);
      assert last !in pre;
      ConcatDistinct(NewKeys(pre, prior), if last in prior then [] else [last]);
    }
  }

  /** Symbols lists each symbol of a formula once. */
  lemma {:induction false} SymbolsDistinct(s: string)
    ensures Distinct(Symbols(s))
    decreases |s|, 1
  {
    SymbolsInDistinct(FindAll(s), s);
  }

  lemma {:induction false} SymbolsInDistinct(cs: seq<Component>, s: string)
    requires forall c | c in cs :: ComponentOf(c, s)
    ensures Distinct(SymbolsIn(cs, s))
    decreases |s|, 0, |cs|
  {
    if cs != [] {
      var last := cs[|cs| - 1];
      assert last in cs;
      var prior := SymbolsIn(cs[..|cs| - 1], s);
      SymbolsInDistinct(cs[..|cs| - 1], s);
      var added := NewSymbols(last, s, prior);
      assert SymbolsIn(cs, s) == prior + added;
      if last.Element? {
        NewKeysDistinct([last.symbol], prior);
      } else if last.group != [] {
        SymbolsDistinct(last.group);
        NewKeysDistinct(Symbols(last.group), prior);
      }
      ConcatDistinct(prior, added);
    }
  }

  lemma {:induction false} PercentsOfAt(ks: seq<string>, s: string, total: real, i: nat)
    requires total != 0.0 && i < |ks|
    ensures PercentsOf(ks, s, total)[i].1 == RoundHalfEven(Amount(s, ks[i], 1.0) / total * 100.0)
  {
    if i > 0 {
      PercentsOfAt(ks[1..], s, total, i - 1);
    }
  }

  /**
   * The normalised entries list every symbol of the formula once, in strictly ascending
   * order, each with the nearest integer (ties to even) to its percentage of the total.
   */
  lemma NormalizedEntriesOrdered(s: string)
    requires NormalizedEntries(s).Some?
    ensures var es := NormalizedEntries(s).value;
      (forall i, j | 0 <= i < j < |es| :: Less(es[i].0, es[j].0))
      && (forall k :: k in Symbols(s) <==> exists i | 0 <= i < |es| :: es[i].0 == k)
      && forall i | 0 <= i < |es| ::
        var exact := Amount(s, es[i].0, 1.0) / SumAmounts(Symbols(s), s) * 100.0;
        exact - 0.5 <= es[i].1 as real <= exact + 0.5
  {
    var syms := Symbols(s);
    var total := SumAmounts(syms, s);
    if total != 0.0 {
      assert NormalizedEntries(s).value == PercentsOf(SortStrings(syms), s, total);
      EntriesSorted(s, syms, total);
      EntriesCover(s, syms, total);
      EntriesRounded(s, syms, total);
    }
  }

  lemma EntriesSorted(s: string, syms: seq<string>, total: real)
    requires syms == Symbols(s) && total != 0.0
    ensures var es := PercentsOf(SortStrings(syms), s, total);
      forall i, j | 0 <= i < j < |es| :: Less(es[i].0, es[j].0)
  {
    var ks := SortStrings(syms);
    var es := PercentsOf(ks, s, total);
    SymbolsDistinct(s);
    forall i, j | 0 <= i < j < |es| ensures Less(es[i].0, es[j].0) {
      assert es[i].0 == ks[i] && es[j].0 == ks[j];
      assert LessEq(ks[i], ks[j]);
      SortedDuplicate(ks, syms, i, j);
    }
  }

  lemma SameElements(a: seq<string>, b: seq<string>)
    requires multiset(a) == multiset(b)
    ensures forall k :: k in a <==> k in b
  {
    forall k ensures k in a <==> k in b {
      assert k in a <==> k in multiset(a);
      assert k in b <==> k in multiset(b);
    }
  }

  lemma EntriesCover(s: string, syms: seq<string>, total: real)
    requires syms == Symbols(s) && total != 0.0
    ensures var es := PercentsOf(SortStrings(syms), s, total);
      forall k :: k in syms <==> exists i | 0 <= i < |es| :: es[i].0 == k
  {
    var ks := SortStrings(syms);
    var es := PercentsOf(ks, s, total);
    SameElements(ks, syms);
    KeysCover(ks, es);
  }

  /** Entries keyed in the order of ks have exactly the keys in ks. */
  lemma KeysCover(ks: seq<string>, es: seq<Entry>)
    requires |es| == |ks| && forall i | 0 <= i < |ks| :: es[i].0 == ks[i]
    ensures forall k :: k in ks <==> exists i | 0 <= i < |es| :: es[i].0 == k
  {
    forall k ensures k in ks <==> exists i | 0 <= i < |es| :: es[i].0 == k {
      if k in ks {
        var i :| 0 <= i < |ks| && ks[i] == k;
        assert es[i].0 == k;
      }
    }
  }

  lemma EntriesRounded(s: string, syms: seq<string>, total: real)
    requires syms == Symbols(s) && total != 0.0
    ensures var es := PercentsOf(SortStrings(syms), s, total);
      forall i | 0 <= i < |es| ::
        var exact := Amount(s, es[i].0, 1.0) / total * 100.0;
        exact - 0.5 <= es[i].1 as real <= exact + 0.5
  {
    var ks := SortStrings(syms);
    var es := PercentsOf(ks, s, total);
    forall i | 0 <= i < |es|
      ensures var exact := Amount(s, es[i].0, 1.0) / total * 100.0;
        exact - 0.5 <= es[i].1 as real <= exact + 0.5
    {
      PercentsOfAt(ks, s, total, i);
    }
  }

  /** A permutation of a duplicate-free sequence has no two equal positions. */
  lemma SortedDuplicate<T>(ks: seq<T>, keys: seq<T>, i: nat, j: nat)
    requires multiset(ks) == multiset(keys)
    requires forall a, b | 0 <= a < b < |keys| :: keys[a] != keys[b]
    requires i < j < |ks|
    ensures ks[i] != ks[j]
  {
    if ks[i] == ks[j] {
      var x := ks[i];
      assert multiset(ks)[x] >= 2 by {
        var rest := ks[..i] + ks[i + 1..];
        assert ks == ks[..i] + [x] + ks[i + 1..];
        assert ks[j] in rest by { assert rest[j - 1] == ks[j]; }
        assert multiset(ks) == multiset(rest) + multiset{x};
      }
      DistinctCount(keys, x);
    }
  }

  lemma {:induction false} DistinctCount<T>(keys: seq<T>, x: T)
    requires forall a, b | 0 <= a < b < |keys| :: keys[a] != keys[b]
    ensures multiset(keys)[x] <= 1
  {
    if keys != [] {
      DistinctCount(keys[1..], x);
      assert keys == [keys[0]] + keys[1..];
      if keys[0] == x {
        assert x !in keys[1..];
      }
    }
  }
}
