/**
 * The request side of the external-resources router: the AFLOW prototype URLs for a
 * space group, the OPTIMADE query URLs, the "first five per database" ordering of the
 * cached resources and the decision to refresh the cache.
 */
module ResourceRequests {
  import opened Wrappers
  import opened Strings
  import opened Resources

  /** Keeps the order of b: a is b with some elements left out. */
  predicate Subsequence<T(==)>(a: seq<T>, b: seq<T>)
    decreases |b|
  {
    if a == [] then true
    else if b == [] then false
    else if a[|a| - 1] == b[|b| - 1] then Subsequence(a[..|a| - 1], b[..|b| - 1])
    else Subsequence(a, b[..|b| - 1])
  }

  lemma {:induction false} SubsequenceDropLast<T>(a: seq<T>, b: seq<T>)
    requires a != [] && Subsequence(a, b)
    ensures Subsequence(a[..|a| - 1], b)
    decreases |b|
  {
    var a' := a[..|a| - 1];
    var b' := b[..|b| - 1];
    if a' != [] {
      if a[|a| - 1] == b[|b| - 1] {
        if a'[|a'| - 1] == b[|b| - 1] {
          SubsequenceDropLast(a', b');
        }
      } else {
        SubsequenceDropLast(a, b');
        if a'[|a'| - 1] == b[|b| - 1] {
          SubsequenceDropLast(a', b');
        }
      }
    }
  }

  lemma SubsequenceExtend<T>(a: seq<T>, b: seq<T>, x: T)
    requires Subsequence(a, b)
    ensures Subsequence(a, b + [x]) && Subsequence(a + [x], b + [x])
  {
    assert (a + [x])[..|a|] == a && (b + [x])[..|b|] == b;
    if a != [] && a[|a| - 1] == x {
      SubsequenceDropLast(a, b);
    }
  }

  // ---------------------------------------------------------------------------
  // _get_urls_aflow_prototypes

  const AflowHomeUrl := "http://aflowlib.org/prototype-encyclopedia"

  /** space_groups[n - 1] with Python's indexing: negative positions count from the end. */
  function SpaceGroupAt(n: int): (r: Option<string>)
    ensures r.Some? <==> -229 <= n <= 230 && n != 0
    ensures 1 <= n <= 230 ==> r == Some(CrystalSystem(n))
  {
    SpaceGroupsTable();
    if 1 <= n <= 230 then Some(SpaceGroups[n - 1])
    else if -229 <= n <= 0 && n != 0 then Some(SpaceGroups[230 + n - 1])
    else None
  }

  /** The regular expression _(\d+)_ matches at position k of p, its digits ending at e. */
  predicate GroupMatch(p: string, k: nat, e: nat) {
    k + 1 < e < |p| && p[k] == '_' && AllDigits(p[k + 1..e]) && p[e] == '_'
  }

  /** Where a match of _(\d+)_ starting at k must end: the greedy digit run, never a shorter one. */
  function MatchEndAt(p: string, k: nat): (r: Option<nat>)
    ensures r.Some? ==> GroupMatch(p, k, r.value)
    ensures r.None? ==> forall e :: !GroupMatch(p, k, e)
  {
    if k < |p| && p[k] == '_' then
      var e := DigitsEnd(p, k + 1);
      if k + 1 < e < |p| && p[e] == '_' then
        var digits := p[k + 1..e];
        assert AllDigits(digits) by {
          forall j | 0 <= j < |digits| ensures IsDigit(digits[j]) { assert digits[j] == p[k + 1 + j]; }
        }
        Some(e)
      else
        assert forall f :: !GroupMatch(p, k, f) by {
          forall f | GroupMatch(p, k, f) ensures false { DigitRunEnds(p, k, e, f); }
        }
        None
    else None
  }

  lemma DigitRunEnds(p: string, k: nat, e: nat, f: nat)
    requires k < |p| && e == DigitsEnd(p, k + 1) && GroupMatch(p, k, f)
    ensures k + 1 < e < |p| && p[e] == '_'
  {
    forall j | k + 1 <= j < f ensures IsDigit(p[j]) { assert p[k + 1..f][j - (k + 1)] == p[j]; }
    DigitsEndPast(p, k + 1, f);
  }

  lemma {:induction false} DigitsEndPast(p: string, i: nat, f: nat)
    requires i <= f < |p| && forall j | i <= j < f :: IsDigit(p[j])
    requires !IsDigit(p[f])
    ensures DigitsEnd(p, i) == f
    decreases f - i
  {
    if i < f {
      DigitsEndPast(p, i + 1, f);
    }
  }

  /** re.search(r'_(\d+)_', p) from position k on: the leftmost match, as (start, end of digits). */
  function SearchGroup(p: string, k: nat): (r: Option<(nat, nat)>)
    ensures r.Some? ==> k <= r.value.0 && GroupMatch(p, r.value.0, r.value.1)
    ensures r.Some? ==> forall j, e | k <= j < r.value.0 :: !GroupMatch(p, j, e)
    ensures r.None? ==> forall j, e | k <= j :: !GroupMatch(p, j, e)
    decreases |p| - k
  {
    if k >= |p| then None
    else match MatchEndAt(p, k)
      case Some(e) => Some((k, e))
      case None => SearchGroup(p, k + 1)
  }

  /** The space group number a prototype path names: int(match.group(1)), or 0 without a match. */
  function PathNumber(p: string): nat
  {
    match SearchGroup(p, 0)
    case None => 0
    case Some((k, e)) => DigitsValue(p[k + 1..e])
  }

  function PrototypeUrl(path: string): string {
    AflowHomeUrl + "/" + path + ".html"
  }

  /** The URLs of the paths whose number is the requested space group, in page order. */
  function PrototypeUrls(paths: seq<string>, n: int): seq<string>
  {
    if paths == [] then []
    else
      var p := paths[|paths| - 1];
      PrototypeUrls(paths[..|paths| - 1], n) + (if PathNumber(p) == n then [PrototypeUrl(p)] else [])
  }

  lemma {:induction false} PrototypeUrlsMembers(paths: seq<string>, n: int, u: string)
    ensures u in PrototypeUrls(paths, n) <==> exists p | p in paths :: PathNumber(p) == n && u == PrototypeUrl(p)
  {
    if paths != [] {
      var pre := paths[..|paths| - 1];
      var p := paths[|paths| - 1];
      PrototypeUrlsMembers(pre, n, u);
      assert paths == pre + [p];
      if u in PrototypeUrls(paths, n) && u !in PrototypeUrls(pre, n) {
        assert p in paths;
      }
      if exists q | q in paths :: PathNumber(q) == n && u == PrototypeUrl(q) {
        var q :| q in paths && PathNumber(q) == n && u == PrototypeUrl(q);
        if q != p {
          assert q in pre;
        }
      }
    }
  }

  /** One more path adds its URL exactly when its number is the group's. */
  lemma PrototypeUrlsStep(paths: seq<string>, i: nat, n: int)
    requires i < |paths|
    ensures PrototypeUrls(paths[..i + 1], n)
      == PrototypeUrls(paths[..i], n) + (if PathNumber(paths[i]) == n then [PrototypeUrl(paths[i])] else [])
  {
    assert paths[..i + 1][..i] == paths[..i];
  }

  function AflowPageUrl(system: string): string {
    AflowHomeUrl + "/" + system + "_spacegroup.html"
  }

  /**
   * _get_urls_aflow_prototypes: no URLs for no space group or group 0; IndexError for a
   * number outside the table; no URLs when the page cannot be downloaded; otherwise the
   * prototype paths of the page whose number is the group. fetch gives the paths
   * prototype_re finds on the downloaded page, None for a failed download.
   */
  method AflowPrototypeUrls(spaceGroup: Option<int>, fetch: string -> Option<seq<string>>)
    returns (r: Result<seq<string>, string>)
    ensures spaceGroup.None? || spaceGroup.value == 0 ==> r == Success([])
    ensures spaceGroup.Some? && spaceGroup.value != 0 ==>
      r == match SpaceGroupAt(spaceGroup.value)
        case None => Failure("IndexError")
        case Some(system) =>
          match fetch(AflowPageUrl(system))
          case None => Success([])
          case Some(paths) => Success(PrototypeUrls(paths, spaceGroup.value))
  {
    if spaceGroup.None? || spaceGroup.value == 0 {
      return Success([]);
    }
    var n := spaceGroup.value;
    var system := SpaceGroupAt(n);
    if system.None? {
      return Failure("IndexError");
    }
    var response := fetch(AflowPageUrl(system.value));
    if response.None? {
      return Success([]);
    }
    var paths := response.value;
    var urls := [];
    var i := 0;
    while i < |paths|
      invariant 0 <= i <= |paths|
      invariant urls == PrototypeUrls(paths[..i], n)
    {
      PrototypeUrlsStep(paths, i, n);
      var number := PathNumber(paths[i]);
      if number == n {
        urls := urls + [PrototypeUrl(paths[i])];
      }
      i := i + 1;
    }
    assert paths[..i] == paths;
    r := Success(urls);
  }

  // ---------------------------------------------------------------------------
  // _get_urls_optimade

  /** optimade_providers: each base URL with its provider name, in declaration order. */
  const OptimadeProviders: seq<(string, string)> := [
    ("https://www.crystallography.net/cod/optimade/v1/", "Crystallography Open Database"),
    ("https://optimade.materialsproject.org/v1/", "The Materials Project"),
    ("https://aiida.materialscloud.org/" + "mc3d-structures/optimade/v1/", "Materials Cloud"),
    ("https://oqmd.org/optimade/v1/", "OQMD"),
    ("https://api.mpds.io/v1/", "Materials Platform for Data Science"),
    ("https://optimade.odbx.science/v1/", "Open Database of Xtals"),
    ("https://www.crystallography.net/tcod/optimade/v1/", "Theoretical Crystallography Open Database"),
    ("http://optimade.2dmatpedia.org/v1/", "2DMatpedia")
  ]

  function BaseUrls(ps: seq<(string, string)>): (r: seq<string>)
    ensures |r| == |ps| && forall i | 0 <= i < |ps| :: r[i] == ps[i].0
  {
    if ps == [] then [] else BaseUrls(ps[..|ps| - 1]) + [ps[|ps| - 1].0]
  }

  /** The base URLs of the providers whose name is one of names, in table order. */
  function NamedBaseUrls(ps: seq<(string, string)>, names: seq<string>): seq<string>
  {
    if ps == [] then []
    else
      var last := ps[|ps| - 1];
      NamedBaseUrls(ps[..|ps| - 1], names) + (if last.1 in names then [last.0] else [])
  }

  /** The providers queried: all of them for None, else those with a requested name. */
  function SelectedProviders(providers: Option<seq<string>>): seq<string>
  {
    match providers
    case None => BaseUrls(OptimadeProviders)
    case Some(names) => NamedBaseUrls(OptimadeProviders, names)
  }

  lemma {:induction false} NamedBaseUrlsMembers(ps: seq<(string, string)>, names: seq<string>, b: string)
    ensures b in NamedBaseUrls(ps, names) <==> exists i | 0 <= i < |ps| :: ps[i].0 == b && ps[i].1 in names
  {
    if ps != [] {
      var pre := ps[..|ps| - 1];
      NamedBaseUrlsMembers(pre, names, b);
      if exists i | 0 <= i < |ps| :: ps[i].0 == b && ps[i].1 in names {
        var i :| 0 <= i < |ps| && ps[i].0 == b && ps[i].1 in names;
        if i < |pre| {
          assert pre[i] == ps[i];
        }
      }
      if exists i | 0 <= i < |pre| :: pre[i].0 == b && pre[i].1 in names {
        var i :| 0 <= i < |pre| && pre[i].0 == b && pre[i].1 in names;
        assert ps[i] == pre[i];
      }
    }
  }

  lemma {:induction false} NamedBaseUrlsOrder(ps: seq<(string, string)>, names: seq<string>)
    ensures Subsequence(NamedBaseUrls(ps, names), BaseUrls(ps))
  {
    if ps != [] {
      var pre := ps[..|ps| - 1];
      var last := ps[|ps| - 1];
      NamedBaseUrlsOrder(pre, names);
      SubsequenceExtend(NamedBaseUrls(pre, names), BaseUrls(pre), last.0);
      assert BaseUrls(ps) == BaseUrls(pre) + [last.0];
      if last.1 in names {
        assert NamedBaseUrls(ps, names) == NamedBaseUrls(pre, names) + [last.0];
      } else {
        assert NamedBaseUrls(ps, names) == NamedBaseUrls(pre, names);
      }
    }
  }

  /**
   * The selected providers are a subsequence of the provider table, all of them for None,
   * and exactly those whose name was requested otherwise.
   */
  lemma SelectedProvidersSpec(providers: Option<seq<string>>, b: string)
    ensures Subsequence(SelectedProviders(providers), BaseUrls(OptimadeProviders))
    ensures providers.None? ==> SelectedProviders(providers) == BaseUrls(OptimadeProviders)
    ensures providers.Some? ==> (b in SelectedProviders(providers) <==>
      exists i | 0 <= i < |OptimadeProviders| :: OptimadeProviders[i].0 == b && OptimadeProviders[i].1 in providers.value)
  {
    match providers
    case None => SubsequenceRefl(BaseUrls(OptimadeProviders));
    case Some(names) =>
      NamedBaseUrlsOrder(OptimadeProviders, names);
      NamedBaseUrlsMembers(OptimadeProviders, names, b);
  }

  lemma {:induction false} SubsequenceRefl<T>(a: seq<T>)
    ensures Subsequence(a, a)
    decreases |a|
  {
    if a != [] {
      SubsequenceRefl(a[..|a| - 1]);
    }
  }

  /** f'chemical_formula_{kind} = "{formula}"' when the formula is given. */
  function FormulaFilter(kind: string, formula: Option<string>): Option<string>
  {
    match formula
    case None => None
    case Some(f) => Some("chemical_formula_" + kind + " = \"" + f + "\"")
  }

  const CrystallographyNet := "https://www.crystallography.net/"

  /** The Crystallography Open Database servers take the Hill formula, the others the reduced one. */
  function QueryFor(base: string, hill: Option<string>, reduced: Option<string>): Option<string>
  {
    if StartsWith(base, CrystallographyNet) then hill else reduced
  }

  function QueryUrl(base: string, query: string): string {
    base + "structures?filter=" + query + "&response_format=json"
  }

  /** One query URL per base URL that has a filter, in base order. */
  function QueryUrls(bases: seq<string>, hill: Option<string>, reduced: Option<string>): seq<string>
  {
    if bases == [] then []
    else
      var b := bases[|bases| - 1];
      var q := QueryFor(b, hill, reduced);
      QueryUrls(bases[..|bases| - 1], hill, reduced) + (if q.None? then [] else [QueryUrl(b, q.value)])
  }

  lemma {:induction false} QueryUrlsMembers(bases: seq<string>, hill: Option<string>, reduced: Option<string>, u: string)
    ensures u in QueryUrls(bases, hill, reduced) <==>
      exists b | b in bases :: QueryFor(b, hill, reduced).Some? && u == QueryUrl(b, QueryFor(b, hill, reduced).value)
  {
    if bases != [] {
      var pre := bases[..|bases| - 1];
      var last := bases[|bases| - 1];
      QueryUrlsMembers(pre, hill, reduced, u);
      assert bases == pre + [last];
      if u in QueryUrls(bases, hill, reduced) && u !in QueryUrls(pre, hill, reduced) {
        assert last in bases;
      }
      if exists b | b in bases :: QueryFor(b, hill, reduced).Some? && u == QueryUrl(b, QueryFor(b, hill, reduced).value) {
        var b :| b in bases && QueryFor(b, hill, reduced).Some? && u == QueryUrl(b, QueryFor(b, hill, reduced).value);
        if b != last {
          assert b in pre;
        }
      }
    }
  }

  lemma DiffersAt(s: string, p: string, k: nat)
    requires k < |s| && k < |p| && s[k] != p[k]
    ensures !StartsWith(s, p)
  {
    if |p| <= |s| {
      assert s[..|p|][k] == s[k];
    }
  }

  /** With only a Hill formula, the two crystallography.net servers are the only ones queried. */
  lemma HillOnlyQueries(hill: string)
    ensures var f := FormulaFilter("hill", Some(hill)).value;
      QueryUrls(BaseUrls(OptimadeProviders), Some(f), None)
        == [QueryUrl(OptimadeProviders[0].0, f), QueryUrl(OptimadeProviders[6].0, f)]
  {
    var f := FormulaFilter("hill", Some(hill)).value;
    var bases := BaseUrls(OptimadeProviders);
    forall i | 1 <= i < 6 || i == 7
      ensures QueryFor(bases[i], Some(f), None).None?
    {
      NotCrystallography(i);
    }
    OnCrystallography();
    HillOnlyOfEight(bases, f);
  }

  /** Only the first and the seventh providers are served from crystallography.net. */
  lemma NotCrystallography(i: nat)
    requires 1 <= i < 6 || i == 7
    ensures !StartsWith(OptimadeProviders[i].0, CrystallographyNet)
  {
    var k := if i == 7 then 4 else 8;
    DiffersAt(OptimadeProviders[i].0, CrystallographyNet, k);
  }

  lemma OnCrystallography()
    ensures |OptimadeProviders| == 8
    ensures StartsWith(OptimadeProviders[0].0, CrystallographyNet) && StartsWith(OptimadeProviders[6].0, CrystallographyNet)
  {
  }

  /** Of eight base URLs with only the first and the seventh taking the Hill formula, those two are queried. */
  lemma HillOnlyOfEight(bases: seq<string>, f: string)
    requires |bases| == 8 && QueryFor(bases[0], Some(f), None) == Some(f) && QueryFor(bases[6], Some(f), None) == Some(f)
    requires forall i | 1 <= i < 6 :: QueryFor(bases[i], Some(f), None).None?
    requires QueryFor(bases[7], Some(f), None).None?
    ensures QueryUrls(bases, Some(f), None) == [QueryUrl(bases[0], f), QueryUrl(bases[6], f)]
  {
    var h, r := Some(f), None;
    QueryUrlsStepSome(bases, 0, h, r, f);
    QueryUrlsNoneRun(bases, 1, 6, h, r);
    QueryUrlsStepSome(bases, 6, h, r, f);
    QueryUrlsStepNone(bases, 7, h, r);
    assert bases[..8] == bases;
  }

  /** Base URLs without a filter add nothing. */
  lemma {:induction false} QueryUrlsNoneRun(bases: seq<string>, i: nat, j: nat, hill: Option<string>, reduced: Option<string>)
    requires i <= j <= |bases| && forall k | i <= k < j :: QueryFor(bases[k], hill, reduced).None?
    ensures QueryUrls(bases[..j], hill, reduced) == QueryUrls(bases[..i], hill, reduced)
    decreases j - i
  {
    if i < j {
      QueryUrlsNoneRun(bases, i, j - 1, hill, reduced);
      QueryUrlsStepNone(bases, j - 1, hill, reduced);
    }
  }

  /** One more base URL with a filter adds its query URL. */
  lemma QueryUrlsStepSome(bases: seq<string>, i: nat, hill: Option<string>, reduced: Option<string>, q: string)
    requires i < |bases| && QueryFor(bases[i], hill, reduced) == Some(q)
    ensures QueryUrls(bases[..i + 1], hill, reduced) == QueryUrls(bases[..i], hill, reduced) + [QueryUrl(bases[i], q)]
  {
    assert bases[..i + 1][..i] == bases[..i];
  }

  /** One more base URL without a filter adds nothing. */
  lemma QueryUrlsStepNone(bases: seq<string>, i: nat, hill: Option<string>, reduced: Option<string>)
    requires i < |bases| && QueryFor(bases[i], hill, reduced).None?
    ensures QueryUrls(bases[..i + 1], hill, reduced) == QueryUrls(bases[..i], hill, reduced)
  {
    assert bases[..i + 1][..i] == bases[..i];
  }

  /**
   * _get_urls_optimade: for each selected provider in table order, the structures query
   * with the Hill filter on crystallography.net and the reduced filter elsewhere; a
   * provider whose filter is missing is skipped.
   */
  method OptimadeUrls(hill: Option<string>, reduced: Option<string>, providers: Option<seq<string>>)
    returns (urls: seq<string>)
    ensures urls == QueryUrls(SelectedProviders(providers), FormulaFilter("hill", hill), FormulaFilter("reduced", reduced))
  {
    var filterHill := FormulaFilter("hill", hill);
    var filterReduced := FormulaFilter("reduced", reduced);
    var bases := SelectedProviders(providers);
    urls := [];
    var i := 0;
    while i < |bases|
      invariant 0 <= i <= |bases|
      invariant urls == QueryUrls(bases[..i], filterHill, filterReduced)
    {
      var query := QueryFor(bases[i], filterHill, filterReduced);
      if query.Some? {
        QueryUrlsStepSome(bases, i, filterHill, filterReduced, query.value);
        urls := urls + [QueryUrl(bases[i], query.value)];
      } else {
        QueryUrlsStepNone(bases, i, filterHill, filterReduced);
      }
      i := i + 1;
    }
    assert bases[..i] == bases;
  }

  // ---------------------------------------------------------------------------
  // convert_resources_to_models

  const NoUrlFound := "__no_url_found"

  /** A cached Resource document; times are in seconds. */
  datatype Resource = Resource(
    id: Option<string>, url: Option<string>, databaseName: string, databaseVersion: Option<string>,
    downloadTime: int, availableData: seq<string>)

  /** The ResourceModel sent to the client. */
  datatype ResourceModel = ResourceModel(
    url: string, id: string, availableData: seq<string>, databaseName: string,
    downloadTime: int, databaseVersion: Option<string>, comment: Option<string>)

  /** Resources that can be shown: present, with a url and an id that is not a no-url marker. */
  predicate Shown(r: Option<Resource>) {
    r.Some? && r.value.url.Some? && r.value.id.Some? && !StartsWith(r.value.id.value, NoUrlFound)
  }

  function ToModel(r: Resource, comments: map<string, string>): ResourceModel
    requires r.url.Some? && r.id.Some?
  {
    ResourceModel(r.url.value, r.id.value, r.availableData, r.databaseName, r.downloadTime,
      r.databaseVersion, if r.databaseName in comments then Some(comments[r.databaseName]) else None)
  }

  /** The models of the shown resources, in input order. */
  function Models(rs: seq<Option<Resource>>, comments: map<string, string>): seq<ResourceModel>
  {
    if rs == [] then []
    else
      var r := rs[|rs| - 1];
      Models(rs[..|rs| - 1], comments) + (if Shown(r) then [ToModel(r.value, comments)] else [])
  }

  /** How many shown resources of database db there are. */
  function ShownCount(rs: seq<Option<Resource>>, db: string): nat
  {
    if rs == [] then 0
    else
      var r := rs[|rs| - 1];
      ShownCount(rs[..|rs| - 1], db) + (if Shown(r) && r.value.databaseName == db then 1 else 0)
  }

  /** The shown resources that are among the first five of their database, in input order. */
  function FirstFive(rs: seq<Option<Resource>>, comments: map<string, string>): seq<ResourceModel>
  {
    if rs == [] then []
    else
      var r := rs[|rs| - 1];
      FirstFive(rs[..|rs| - 1], comments)
        + (if Shown(r) && ShownCount(rs, r.value.databaseName) <= 5 then [ToModel(r.value, comments)] else [])
  }

  /** The shown resources beyond the fifth of their database, in input order. */
  function Overflow(rs: seq<Option<Resource>>, comments: map<string, string>): seq<ResourceModel>
  {
    if rs == [] then []
    else
      var r := rs[|rs| - 1];
      Overflow(rs[..|rs| - 1], comments)
        + (if Shown(r) && ShownCount(rs, r.value.databaseName) > 5 then [ToModel(r.value, comments)] else [])
  }

  /** The sources counters agree with the counts of the shown resources so far. */
  ghost predicate CountersAgree(sources: map<string, nat>, rs: seq<Option<Resource>>) {
    forall db :: (if db in sources then sources[db] else 0) == ShownCount(rs, db)
  }

  lemma CountersStep(sources: map<string, nat>, rs: seq<Option<Resource>>, r: Option<Resource>)
    requires CountersAgree(sources, rs)
    ensures var rs' := rs + [r];
      && rs'[..|rs|] == rs && rs'[|rs|] == r
      && (!Shown(r) ==> CountersAgree(sources, rs'))
      && (Shown(r) ==>
        var db := r.value.databaseName;
        var count := (if db in sources then sources[db] else 0) + 1;
        CountersAgree(sources[db := count], rs') && ShownCount(rs', db) == count)
  {
    var rs' := rs + [r];
    assert rs'[..|rs|] == rs;
  }

  /**
   * convert_resources_to_models: the models of the shown resources, those among the first
   * five of their database first and the rest after, each part in input order.
   */
  method ConvertResourcesToModels(resources: seq<Option<Resource>>, comments: map<string, string>)
    returns (models: seq<ResourceModel>)
    ensures models == FirstFive(resources, comments) + Overflow(resources, comments)
  {
    var sources: map<string, nat> := map[];
    var data := [];
    var additionalData := [];
    var i := 0;
    while i < |resources|
      invariant 0 <= i <= |resources|
      invariant CountersAgree(sources, resources[..i])
      invariant data == FirstFive(resources[..i], comments)
      invariant additionalData == Overflow(resources[..i], comments)
    {
      var resource := resources[i];
      CountersStep(sources, resources[..i], resource);
      assert resources[..i + 1] == resources[..i] + [resource];
      if !Shown(resource) {
        i := i + 1;
        continue;
      }
      var database := resource.value.databaseName;
      var count := (if database in sources then sources[database] else 0) + 1;
      sources := sources[database := count];
      var model := ToModel(resource.value, comments);
      if count <= 5 {
        data := data + [model];
      } else {
        additionalData := additionalData + [model];
      }
      i := i + 1;
    }
    assert resources[..i] == resources;
    models := data + additionalData;
  }

  /** Every shown resource is in exactly one of the two parts, so together they hold all the models. */
  lemma {:induction false} PartsArePermutation(rs: seq<Option<Resource>>, comments: map<string, string>)
    ensures multiset(FirstFive(rs, comments) + Overflow(rs, comments)) == multiset(Models(rs, comments))
  {
    if rs != [] {
      PartsArePermutation(rs[..|rs| - 1], comments);
    }
  }

  /** Each part keeps the order the resources came in. */
  lemma {:induction false} PartsKeepOrder(rs: seq<Option<Resource>>, comments: map<string, string>)
    ensures Subsequence(FirstFive(rs, comments), Models(rs, comments))
    ensures Subsequence(Overflow(rs, comments), Models(rs, comments))
  {
    if rs != [] {
      var pre := rs[..|rs| - 1];
      var r := rs[|rs| - 1];
      PartsKeepOrder(pre, comments);
      if Shown(r) {
        var m := ToModel(r.value, comments);
        SubsequenceExtend(FirstFive(pre, comments), Models(pre, comments), m);
        SubsequenceExtend(Overflow(pre, comments), Models(pre, comments), m);
        assert Models(rs, comments) == Models(pre, comments) + [m];
        if ShownCount(rs, r.value.databaseName) <= 5 {
          assert FirstFive(rs, comments) == FirstFive(pre, comments) + [m];
          assert Overflow(rs, comments) == Overflow(pre, comments);
        } else {
          assert FirstFive(rs, comments) == FirstFive(pre, comments);
          assert Overflow(rs, comments) == Overflow(pre, comments) + [m];
        }
      } else {
        assert Models(rs, comments) == Models(pre, comments);
        assert FirstFive(rs, comments) == FirstFive(pre, comments);
        assert Overflow(rs, comments) == Overflow(pre, comments);
      }
    }
  }

  function ModelCount(ms: seq<ResourceModel>, db: string): nat
  {
    if ms == [] then 0 else ModelCount(ms[..|ms| - 1], db) + (if ms[|ms| - 1].databaseName == db then 1 else 0)
  }

  /**
   * The first part holds the first five shown resources of each database: min(5, n) of a
   * database with n of them; the overflow holds the others.
   */
  lemma {:induction false} FirstFivePerDatabase(rs: seq<Option<Resource>>, comments: map<string, string>, db: string)
    ensures ModelCount(FirstFive(rs, comments), db) == (if ShownCount(rs, db) <= 5 then ShownCount(rs, db) else 5)
    ensures ModelCount(Overflow(rs, comments), db) == (if ShownCount(rs, db) <= 5 then 0 else ShownCount(rs, db) - 5)
  {
    if rs != [] {
      var pre := rs[..|rs| - 1];
      var r := rs[|rs| - 1];
      FirstFivePerDatabase(pre, comments, db);
      if Shown(r) {
        var m := ToModel(r.value, comments);
        ModelCountAppend(FirstFive(pre, comments), m, db);
        ModelCountAppend(Overflow(pre, comments), m, db);
        if ShownCount(rs, r.value.databaseName) <= 5 {
          assert FirstFive(rs, comments) == FirstFive(pre, comments) + [m];
          assert Overflow(rs, comments) == Overflow(pre, comments);
        } else {
          assert FirstFive(rs, comments) == FirstFive(pre, comments);
          assert Overflow(rs, comments) == Overflow(pre, comments) + [m];
        }
      } else {
        assert FirstFive(rs, comments) == FirstFive(pre, comments);
        assert Overflow(rs, comments) == Overflow(pre, comments);
      }
    }
  }

  lemma ModelCountAppend(ms: seq<ResourceModel>, m: ResourceModel, db: string)
    ensures ModelCount(ms + [m], db) == ModelCount(ms, db) + (if m.databaseName == db then 1 else 0)
  {
    assert (ms + [m])[..|ms|] == ms;
  }

  // ---------------------------------------------------------------------------
  // The refresh decision of get_resources

  /** The status record of a query: whether a retrieval is running and when it was stored. */
  datatype Status = Status(isUpdating: bool, downloadTime: int)

  /** Whether the resources of a query are retrieved again. */
  predicate TriggersRefresh(status: Option<Status>, now: int, maxTimeInMongo: int) {
    status.None? || (!status.value.isUpdating && now - status.value.downloadTime > maxTimeInMongo)
  }

  /** The cached resources younger than maxTimeInMongo, in order; the others are deleted. */
  function FreshResources(rs: seq<Resource>, now: int, maxTimeInMongo: int): seq<Resource>
  {
    if rs == [] then []
    else
      var r := rs[|rs| - 1];
      FreshResources(rs[..|rs| - 1], now, maxTimeInMongo)
        + (if now - r.downloadTime > maxTimeInMongo then [] else [r])
  }

  function Urls(rs: seq<Resource>): set<Option<string>>
  {
    if rs == [] then {} else Urls(rs[..|rs| - 1]) + {rs[|rs| - 1].url}
  }

  /** One more resource is kept exactly when it is young enough. */
  lemma FreshStep(rs: seq<Resource>, i: nat, now: int, maxTimeInMongo: int)
    requires i < |rs|
    ensures FreshResources(rs[..i + 1], now, maxTimeInMongo) == FreshResources(rs[..i], now, maxTimeInMongo)
      + (if now - rs[i].downloadTime > maxTimeInMongo then [] else [rs[i]])
  {
    assert rs[..i + 1][..i] == rs[..i];
  }

  /** Keeping one more resource adds its URL. */
  lemma UrlsSnoc(rs: seq<Resource>, r: Resource)
    ensures Urls(rs + [r]) == Urls(rs) + {r.url}
  {
    assert (rs + [r])[..|rs|] == rs;
  }

  function Present(rs: seq<Resource>): (r: seq<Option<Resource>>)
    ensures |r| == |rs| && forall i | 0 <= i < |rs| :: r[i] == Some(rs[i])
  {
    if rs == [] then [] else Present(rs[..|rs| - 1]) + [Some(rs[|rs| - 1])]
  }

  /** What get_resources answers and does for the cached resources of one query. */
  datatype Response = Response(
    data: seq<ResourceModel>, isRetrievingMore: bool,
    refresh: bool, knownUrls: set<Option<string>>, deleted: seq<Resource>)

  /**
   * get_resources past the database queries: a missing status record is created as updating
   * and triggers a refresh, as does a stale status that is not updating; stale resources
   * are deleted and the rest converted; the answer says whether more are being retrieved.
   */
  method GetResources(resources: seq<Resource>, status: Option<Status>, now: int, maxTimeInMongo: int,
    comments: map<string, string>) returns (r: Response)
    ensures r.refresh <==> TriggersRefresh(status, now, maxTimeInMongo)
    ensures r.isRetrievingMore <==> r.refresh || status.value.isUpdating
    ensures var young := FreshResources(resources, now, maxTimeInMongo);
      && r.data == FirstFive(Present(young), comments) + Overflow(Present(young), comments)
      && r.knownUrls == Urls(young)
    ensures forall x | x in r.deleted :: x in resources && now - x.downloadTime > maxTimeInMongo
    ensures |r.deleted| + |FreshResources(resources, now, maxTimeInMongo)| == |resources|
  {
    var statusResource: Status;
    var triggerRefresh := false;
    if status.None? {
      statusResource := Status(true, now);
      triggerRefresh := true;
    } else {
      statusResource := status.value;
    }
    if !statusResource.isUpdating {
      var deltaTime := now - statusResource.downloadTime;
      if deltaTime > maxTimeInMongo {
        triggerRefresh := true;
      }
    }
    var existing := [];
    var existingUrls := {};
    var deleted := [];
    var i := 0;
    while i < |resources|
      invariant 0 <= i <= |resources|
      invariant existing == FreshResources(resources[..i], now, maxTimeInMongo)
      invariant existingUrls == Urls(existing)
      invariant forall x | x in deleted :: x in resources && now - x.downloadTime > maxTimeInMongo
      invariant |deleted| + |existing| == i
    {
      var resource := resources[i];
      FreshStep(resources, i, now, maxTimeInMongo);
      if now - resource.downloadTime > maxTimeInMongo {
        deleted := deleted + [resource];
        i := i + 1;
        continue;
      }
      UrlsSnoc(existing, resource);
      existing := existing + [resource];
      existingUrls := existingUrls + {resource.url};
      i := i + 1;
    }
    assert resources[..i] == resources;
    var models := ConvertResourcesToModels(Present(existing), comments);
    if triggerRefresh {
      statusResource := statusResource.(isUpdating := true);
    }
    r := Response(models, statusResource.isUpdating, triggerRefresh, existingUrls, deleted);
  }
}
