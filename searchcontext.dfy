/**
 * The shared search state of the GUI (gui/src/components/search/SearchContext.js):
 * JavaScript objects and their spread, the query and request updates, the
 * search object sent to the API, the metric read back from a response, the
 * domain switch, and the re-search decision after an update.
 */
module SearchState {
  import opened Wrappers
  import opened Strings

  // ---------------------------------------------------------------------------
  // JavaScript values and objects

  /** A JSON-like JavaScript value; an object is its own properties in insertion order. */
  datatype JsValue =
    | Undefined
    | Null
    | Bool(b: bool)
    | Num(n: int)
    | Str(s: string)
    | Arr(items: seq<JsValue>)
    | Obj(fields: seq<(string, JsValue)>)

  /** An object's own properties, in insertion order. */
  type Fields = seq<(string, JsValue)>

  /** The object has a property k. */
  predicate HasKey(o: Fields, k: string) {
    exists i | 0 <= i < |o| :: o[i].0 == k
  }

  /** Object.keys(o). */
  function Keys(o: Fields): (r: seq<string>)
    ensures |r| == |o|
    ensures forall i | 0 <= i < |o| :: r[i] == o[i].0
  {
    seq(|o|, i requires 0 <= i < |o| => o[i].0)
  }

  /** o[k]: the value of the last binding of k, if there is one. */
  function Lookup(o: Fields, k: string): (r: Option<JsValue>)
    ensures r.Some? <==> HasKey(o, k)
    decreases |o|
  {
    if o == [] then None
    else if o[|o| - 1].0 == k then Some(o[|o| - 1].1)
    else
      var r := Lookup(o[..|o| - 1], k);
      assert HasKey(o, k) <==> HasKey(o[..|o| - 1], k) by {
        if HasKey(o, k) {
          var i :| 0 <= i < |o| && o[i].0 == k;
          assert o[..|o| - 1][i].0 == k;
        }
        if HasKey(o[..|o| - 1], k) {
          var i :| 0 <= i < |o| - 1 && o[..|o| - 1][i].0 == k;
          assert o[i].0 == k;
        }
      }
      r
  }

  /** Every binding of k rebound to v, in place. */
  function Rebind(o: Fields, k: string, v: JsValue): (r: Fields)
    ensures |r| == |o|
    ensures forall i | 0 <= i < |o| :: r[i] == (if o[i].0 == k then (k, v) else o[i])
  {
    seq(|o|, i requires 0 <= i < |o| => if o[i].0 == k then (k, v) else o[i])
  }

  lemma {:induction false} LookupRebind(o: Fields, k: string, v: JsValue, k': string)
    ensures Lookup(Rebind(o, k, v), k') == if k' != k then Lookup(o, k') else if HasKey(o, k) then Some(v) else None
    decreases |o|
  {
    if o != [] {
      var n := |o| - 1;
      assert Rebind(o, k, v)[..n] == Rebind(o[..n], k, v);
      LookupRebind(o[..n], k, v, k');
    }
  }

  /**
   * `o[k] = v`: an existing property keeps its place and takes the new
   * value; a new one is added at the end.
   */
  function Put(o: Fields, k: string, v: JsValue): (r: Fields)
    ensures Lookup(r, k) == Some(v)
    ensures forall k' | k' != k :: Lookup(r, k') == Lookup(o, k')
    ensures |o| <= |r| && Keys(r)[..|o|] == Keys(o)
    ensures HasKey(o, k) ==> |r| == |o|
  {
    var m := Rebind(o, k, v);
    forall k' ensures Lookup(m, k') == if k' != k then Lookup(o, k') else if HasKey(o, k) then Some(v) else None {
      LookupRebind(o, k, v, k');
    }
    if HasKey(o, k) then m
    else
      assert m + [(k, v)] == m + [(k, v)];
      assert (m + [(k, v)])[..|m|] == m;
      assert Keys(m + [(k, v)])[..|o|] == Keys(o);
      m + [(k, v)]
  }

  /** `{...a, ...b}`: b's properties assigned over a's, in b's order. */
  function Spread(a: Fields, b: Fields): (r: Fields)
    decreases |b|
  {
    if b == [] then a
    else
      var last := b[|b| - 1];
      Put(Spread(a, b[..|b| - 1]), last.0, last.1)
  }

  /** In a spread, b's value wins, and a's shows through for keys b lacks. */
  lemma {:induction false} SpreadLookup(a: Fields, b: Fields, k: string)
    ensures Lookup(Spread(a, b), k) == if HasKey(b, k) then Lookup(b, k) else Lookup(a, k)
    decreases |b|
  {
    if b != [] {
      SpreadLookup(a, b[..|b| - 1], k);
    }
  }

  /** A spread keeps a's keys first, in a's order. */
  lemma {:induction false} SpreadKeysPrefix(a: Fields, b: Fields)
    ensures |a| <= |Spread(a, b)| && Keys(Spread(a, b))[..|a|] == Keys(a)
    decreases |b|
  {
    if b != [] {
      var s := Spread(a, b[..|b| - 1]);
      SpreadKeysPrefix(a, b[..|b| - 1]);
      var r := Spread(a, b);
      assert Keys(r)[..|s|] == Keys(s);
      assert Keys(r)[..|a|] == Keys(r)[..|s|][..|a|];
    }
  }

  /** Spreading the same changes twice is spreading them once. */
  lemma SpreadTwice(a: Fields, b: Fields, k: string)
    ensures Lookup(Spread(Spread(a, b), b), k) == Lookup(Spread(a, b), k)
  {
    SpreadLookup(Spread(a, b), b, k);
    SpreadLookup(a, b, k);
  }

  /** A mutable JavaScript object: state values are compared by identity. */
  class JsObject {
    var fields: Fields

    constructor (fields: Fields)
      ensures this.fields == fields
    {
      this.fields := fields;
    }
  }

  // ---------------------------------------------------------------------------
  // Domains and the context's state

  /** A search domain: its key and its default search metric. */
  datatype Domain = Domain(key: string, defaultSearchMetric: string)

  /** The request in the initial state. */
  const DefaultRequest: Fields := [
    ("statistics", Bool(true)),
    ("order_by", Str("upload_time")),
    ("order", Num(-1)),
    ("page", Num(1)),
    ("per_page", Num(10))]

  /** SearchContext.emptyResponse. */
  const EmptyResponse := Obj([("statistics", Obj([("total", Obj([("all", Obj([]))]))]))])

  /**
   * `v && v.length === 0`: v is truthy and its length is 0. That is an empty
   * array, or an object whose `length` property is 0; the empty string has
   * length 0 but is falsy, and other strings and arrays are longer.
   */
  predicate TruthyEmpty(v: JsValue) {
    v == Arr([]) || (v.Obj? && Lookup(v.fields, "length") == Some(Num(0)))
  }

  /** `changes[k]` is set to undefined when it is truthy with length 0. */
  function ClearEmpty(changes: Fields, k: string): (r: Fields)
    ensures Lookup(changes, k).Some? && TruthyEmpty(Lookup(changes, k).value) ==> Lookup(r, k) == Some(Undefined)
    ensures !(Lookup(changes, k).Some? && TruthyEmpty(Lookup(changes, k).value)) ==> r == changes
    ensures forall k' | k' != k :: Lookup(r, k') == Lookup(changes, k')
    ensures Keys(r) == Keys(changes)
  {
    if Lookup(changes, k).Some? && TruthyEmpty(Lookup(changes, k).value) then Put(changes, k, Undefined) else changes
  }

  /**
   * After clearing, the key holds no truthy value of length 0, and a value
   * that is not one of those is kept as it was.
   */
  lemma ClearEmptyClears(changes: Fields, k: string)
    ensures var v := Lookup(ClearEmpty(changes, k), k); v.None? || !TruthyEmpty(v.value)
    ensures var v := Lookup(changes, k); v.Some? && !TruthyEmpty(v.value) ==> Lookup(ClearEmpty(changes, k), k) == v
  {
  }

  /** How a property key is spelled when an object is used as one. */
  const ObjectKey := "[object Object]"

  /**
   * The domain chosen on a change as written: `domains[domain]` looks up the
   * domain object itself, i.e. the key "[object Object]", and falls back to
   * the default domain; `domains` undefined throws.
   */
  function ChosenDomain(domains: Option<map<string, Domain>>, requested: Domain, defaultDomain: Domain): (r: Result<Domain, string>)
    ensures domains.None? ==> r == Failure("TypeError")
    ensures domains.Some? && ObjectKey !in domains.value ==> r == Success(defaultDomain)
  {
    if domains.None? then Failure("TypeError")
    else if ObjectKey in domains.value then Success(domains.value[ObjectKey])
    else Success(defaultDomain)
  }

  /** The domain chosen when the lookup uses the requested domain's key. */
  function ChosenDomainIntended(domains: Option<map<string, Domain>>, requested: Domain, defaultDomain: Domain): (r: Result<Domain, string>)
    ensures domains.None? ==> r == Failure("TypeError")
    ensures domains.Some? && requested.key in domains.value ==> r == Success(domains.value[requested.key])
    ensures domains.Some? && requested.key !in domains.value ==> r == Success(defaultDomain)
  {
    if domains.None? then Failure("TypeError")
    else if requested.key in domains.value then Success(domains.value[requested.key])
    else Success(defaultDomain)
  }

  /**
   * As written, switching to a listed domain other than the default lands on
   * the default domain; the intended lookup lands on the requested one.
   */
  lemma DomainLookupByObject(domains: map<string, Domain>, requested: Domain, defaultDomain: Domain)
    requires ObjectKey !in domains && requested.key in domains && domains[requested.key] != defaultDomain
    ensures ChosenDomain(Some(domains), requested, defaultDomain) == Success(defaultDomain)
    ensures ChosenDomainIntended(Some(domains), requested, defaultDomain) == Success(domains[requested.key])
    ensures ChosenDomain(Some(domains), requested, defaultDomain) != ChosenDomainIntended(Some(domains), requested, defaultDomain)
  {
  }

  /**
   * The search object: the request, then the query, then the domain key and
   * the metrics (none for the default metric), then the query prop's keys.
   */
  function SearchObject(request: Fields, query: Fields, domainKey: string, metric: string, defaultMetric: string, propsQuery: Option<Fields>): (r: Fields)
  {
    var metrics := if metric == defaultMetric then Arr([]) else Arr([Str(metric)]);
    Spread(Spread(Spread(Spread(request, query), [("domain", Str(domainKey))]), [("metrics", metrics)]), propsQuery.GetOr([]))
  }

  /** The precedence in the search object: the query prop first, then metrics and domain, then query, then request. */
  lemma SearchObjectLookup(request: Fields, query: Fields, domainKey: string, metric: string, defaultMetric: string, propsQuery: Option<Fields>, k: string)
    ensures var p := propsQuery.GetOr([]);
      Lookup(SearchObject(request, query, domainKey, metric, defaultMetric, propsQuery), k) ==
        if HasKey(p, k) then Lookup(p, k)
        else if k == "metrics" then Some(if metric == defaultMetric then Arr([]) else Arr([Str(metric)]))
        else if k == "domain" then Some(Str(domainKey))
        else if HasKey(query, k) then Lookup(query, k)
        else Lookup(request, k)
  {
    var p := propsQuery.GetOr([]);
    var metrics := if metric == defaultMetric then Arr([]) else Arr([Str(metric)]);
    var s1 := Spread(request, query);
    var s2 := Spread(s1, [("domain", Str(domainKey))]);
    var s3 := Spread(s2, [("metrics", metrics)]);
    SpreadLookup(s3, p, k);
    SpreadLookup(s2, [("metrics", metrics)], k);
    SpreadLookup(s1, [("domain", Str(domainKey))], k);
    SpreadLookup(request, query, k);
    assert HasKey([("metrics", metrics)], k) <==> k == "metrics" by {
      assert [("metrics", metrics)][0].0 == "metrics";
    }
    assert HasKey([("domain", Str(domainKey))], k) <==> k == "domain" by {
      assert [("domain", Str(domainKey))][0].0 == "domain";
    }
  }

  /** The index of the first element of s other than x: Array.prototype.find with `!== x`. */
  function FindOther(s: seq<string>, x: string): (r: Option<nat>)
    ensures r.Some? ==> r.value < |s| && s[r.value] != x
    ensures r.Some? ==> forall j | 0 <= j < r.value :: s[j] == x
    ensures r.None? ==> forall j | 0 <= j < |s| :: s[j] == x
    decreases |s|
  {
    if s == [] then None
    else if s[0] != x then Some(0)
    else
      var k := FindOther(s[1..], x);
      if k.Some? then Some(k.value + 1) else None
  }

  /** Object.keys(v): undefined and null throw; values that are not objects are taken to have no keys. */
  function KeysOf(v: JsValue): (r: Result<seq<string>, string>)
    ensures v.Obj? ==> r == Success(Keys(v.fields))
    ensures (v.Undefined? || v.Null?) ==> r.Failure?
  {
    match v
    case Undefined => Failure("TypeError")
    case Null => Failure("TypeError")
    case Obj(f) => Success(Keys(f))
    case _ => Success([])
  }

  /** The value of an existing key, and undefined for a missing one. */
  function Get(o: Fields, k: string): JsValue {
    Lookup(o, k).GetOr(Undefined)
  }

  /**
   * The metric a response's statistics use: the first key other than the
   * default among the metrics of the first value of the first statistic
   * other than `total`; the default when any of these is missing or falsy.
   */
  function UsedMetric(statistics: Fields, defaultMetric: string): (r: Result<string, string>)
  {
    var q := FindOther(Keys(statistics), "total");
    if q.None? || statistics[q.value].0 == "" then Success(defaultMetric)
    else
      var values :- KeysOf(Get(statistics, statistics[q.value].0));
      if values == [] || values[0] == "" then Success(defaultMetric)
      else
        var stat := Get(statistics, statistics[q.value].0);
        var metrics :- KeysOf(if stat.Obj? then Get(stat.fields, values[0]) else Undefined);
        var m := FindOther(metrics, defaultMetric);
        if m.None? || metrics[m.value] == "" then Success(defaultMetric)
        else Success(metrics[m.value])
  }

  /** Without a statistic other than `total`, the default metric is used. */
  lemma UsedMetricDefault(statistics: Fields, defaultMetric: string)
    requires forall i | 0 <= i < |statistics| :: statistics[i].0 == "total"
    ensures UsedMetric(statistics, defaultMetric) == Success(defaultMetric)
  {
    assert FindOther(Keys(statistics), "total").None?;
  }

  /**
   * When the first statistic other than `total` is an object whose first
   * value has metrics, the first of them other than the default is used
   * (none: the default).
   */
  lemma UsedMetricFirst(pre: Fields, key: string, stat: Fields, metrics: Fields, post: Fields, defaultMetric: string)
    requires forall i | 0 <= i < |pre| :: pre[i].0 == "total"
    requires key != "total" && key != "" && !HasKey(post, key) && |stat| > 0 && stat[0].0 != ""
    requires Lookup(stat, stat[0].0) == Some(Obj(metrics))
    ensures var m := FindOther(Keys(metrics), defaultMetric);
      UsedMetric(pre + [(key, Obj(stat))] + post, defaultMetric) ==
        if m.None? || metrics[m.value].0 == "" then Success(defaultMetric) else Success(metrics[m.value].0)
  {
    var statistics := pre + [(key, Obj(stat))] + post;
    assert Keys(statistics)[|pre|] == key;
    assert forall j | 0 <= j < |pre| :: Keys(statistics)[j] == "total";
    assert FindOther(Keys(statistics), "total") == Some(|pre|) by {
      FindOtherAt(Keys(statistics), "total", |pre|);
    }
    LookupAfter(pre + [(key, Obj(stat))], post, key);
    assert Lookup(pre + [(key, Obj(stat))], key) == Some(Obj(stat));
    UsedMetricOf(statistics, defaultMetric, |pre|, stat, metrics);
  }

  /** The metric once the first statistic other than `total` and its first value's metrics are known. */
  lemma UsedMetricOf(statistics: Fields, defaultMetric: string, k: nat, stat: Fields, metrics: Fields)
    requires FindOther(Keys(statistics), "total") == Some(k) && statistics[k].0 != ""
    requires Lookup(statistics, statistics[k].0) == Some(Obj(stat))
    requires |stat| > 0 && stat[0].0 != "" && Lookup(stat, stat[0].0) == Some(Obj(metrics))
    ensures var m := FindOther(Keys(metrics), defaultMetric);
      UsedMetric(statistics, defaultMetric) ==
        if m.None? || metrics[m.value].0 == "" then Success(defaultMetric) else Success(metrics[m.value].0)
  {
    assert Keys(stat)[0] == stat[0].0;
  }

  /**
   * A first statistic other than `total` whose key is the empty string is
   * falsy, so the default metric is used whatever it holds.
   */
  lemma UsedMetricEmptyKey(pre: Fields, v: JsValue, post: Fields, defaultMetric: string)
    requires forall i | 0 <= i < |pre| :: pre[i].0 == "total"
    ensures UsedMetric(pre + [("", v)] + post, defaultMetric) == Success(defaultMetric)
  {
    var statistics := pre + [("", v)] + post;
    assert Keys(statistics)[|pre|] == "";
    assert forall j | 0 <= j < |pre| :: Keys(statistics)[j] == "total";
    FindOtherAt(Keys(statistics), "total", |pre|);
  }

  /** An element other than x with only x before it is what find returns. */
  lemma {:induction false} FindOtherAt(s: seq<string>, x: string, i: nat)
    requires i < |s| && s[i] != x
    requires forall j | 0 <= j < i :: s[j] == x
    ensures FindOther(s, x) == Some(i)
    decreases i
  {
    if i > 0 {
      FindOtherAt(s[1..], x, i - 1);
    }
  }

  /** Bindings of other keys appended after k do not hide it. */
  lemma {:induction false} LookupAfter(o: Fields, post: Fields, k: string)
    requires !HasKey(post, k)
    ensures Lookup(o + post, k) == Lookup(o, k)
    decreases |post|
  {
    if post == [] {
      assert o + post == o;
    } else {
      var n := |post| - 1;
      assert post[n].0 != k;
      assert (o + post)[|o + post| - 1] == post[n];
      assert (o + post)[..|o + post| - 1] == o + post[..n];
      LookupAfter(o, post[..n], k);
    }
  }

  /**
   * The metric of a search answer: `const {statistics} = response`, then
   * UsedMetric. An answer that is not an object has no statistics (or throws
   * on destructuring), and Object.keys of undefined or null statistics throws;
   * statistics of another kind have no keys, so the default metric is used.
   */
  function AnswerMetric(answer: JsValue, defaultMetric: string): (r: Result<string, string>)
    ensures !answer.Obj? ==> r.Failure?
    ensures answer.Obj? ==> var st := Get(answer.fields, "statistics");
      && ((st.Undefined? || st.Null?) ==> r.Failure?)
      && (!st.Obj? && !st.Undefined? && !st.Null? ==> r == Success(defaultMetric))
      && (st.Obj? ==> r == UsedMetric(st.fields, defaultMetric))
  {
    if !answer.Obj? then Failure("TypeError")
    else
      var st := Get(answer.fields, "statistics");
      if st.Obj? then UsedMetric(st.fields, defaultMetric)
      else
        var keys :- KeysOf(st);
        Success(defaultMetric)
  }

  /** The SearchContext component's state. */
  class SearchContext {
    const defaultDomain: Domain
    const defaultMetric: string
    var response: JsValue
    var request: JsObject
    var query: JsObject
    var metric: string
    var usedMetric: string
    var domain: Domain

    /**
     * The initial state: the default request overridden by initialRequest's
     * keys, and initialQuery itself (the same object) or an empty query.
     */
    constructor (defaultDomain: Domain, initialQuery: JsObject?, initialRequest: JsObject?)
      ensures this.defaultDomain == defaultDomain && defaultMetric == defaultDomain.defaultSearchMetric
      ensures metric == defaultMetric && usedMetric == defaultMetric && domain == defaultDomain
      ensures response == EmptyResponse
      ensures initialQuery != null ==> query == initialQuery
      ensures initialQuery == null ==> fresh(query) && query.fields == []
      ensures fresh(request)
      ensures request.fields == if initialRequest != null then Spread(DefaultRequest, initialRequest.fields) else DefaultRequest
    {
      this.defaultDomain := defaultDomain;
      defaultMetric := defaultDomain.defaultSearchMetric;
      response := EmptyResponse;
      metric := defaultDomain.defaultSearchMetric;
      usedMetric := defaultDomain.defaultSearchMetric;
      domain := defaultDomain;
      var r := new JsObject(DefaultRequest);
      if initialQuery != null {
        query := initialQuery;
      } else {
        query := new JsObject([]);
      }
      if initialRequest != null {
        r := new JsObject(Spread(r.fields, initialRequest.fields));
      }
      request := r;
    }

    /** handleRequestChange: a new request object, the changes spread over the current one. */
    method HandleRequestChange(changes: JsObject)
      modifies this
      ensures fresh(request) && request.fields == Spread(old(request.fields), changes.fields)
      ensures query == old(query) && metric == old(metric) && domain == old(domain)
      ensures usedMetric == old(usedMetric) && response == old(response)
    {
      request := new JsObject(Spread(request.fields, changes.fields));
    }

    /**
     * handleQueryChange: empty `dft.atoms` and `dft.only_atoms` arrays in the
     * changes are set to undefined, in the changes object itself; then the
     * changes object becomes the query (replace), or a new object with the
     * changes spread over the query.
     */
    method HandleQueryChange(changes: JsObject, replace: bool)
      modifies this, changes
      ensures changes.fields == ClearEmpty(ClearEmpty(old(changes.fields), "dft.atoms"), "dft.only_atoms")
      ensures replace ==> query == changes
      ensures !replace ==> fresh(query) && query.fields == Spread(old(query).fields, changes.fields)
      ensures request == old(request) && metric == old(metric) && domain == old(domain)
      ensures usedMetric == old(usedMetric) && response == old(response)
    {
      if Lookup(changes.fields, "dft.atoms").Some? && TruthyEmpty(Lookup(changes.fields, "dft.atoms").value) {
        changes.fields := Put(changes.fields, "dft.atoms", Undefined);
      }
      if Lookup(changes.fields, "dft.only_atoms").Some? && TruthyEmpty(Lookup(changes.fields, "dft.only_atoms").value) {
        changes.fields := Put(changes.fields, "dft.only_atoms", Undefined);
      }
      if replace {
        query := changes;
      } else {
        query := new JsObject(Spread(query.fields, changes.fields));
      }
    }

    method HandleMetricChange(metric: string)
      modifies this
      ensures this.metric == metric
      ensures request == old(request) && query == old(query) && domain == old(domain)
      ensures usedMetric == old(usedMetric) && response == old(response)
    {
      this.metric := metric;
    }

    /**
     * handleDomainChange with the `domains` table (absent: undefined): a
     * domain with the current key changes nothing and searches nothing;
     * another one sets the domain ChosenDomain gives and searches
     * (searched), or throws.
     */
    method HandleDomainChange(requested: Domain, domains: Option<map<string, Domain>>) returns (r: Result<bool, string>)
      modifies this
      ensures requested.key == old(domain.key) ==> r == Success(false) && domain == old(domain)
      ensures requested.key != old(domain.key) ==>
        var c := ChosenDomain(domains, requested, defaultDomain);
        && (c.Failure? ==> r == Failure(c.error) && domain == old(domain))
        && (c.Success? ==> r == Success(true) && domain == c.value)
      ensures request == old(request) && query == old(query) && metric == old(metric)
      ensures usedMetric == old(usedMetric) && response == old(response)
    {
      if requested.key != domain.key {
        var c := ChosenDomain(domains, requested, defaultDomain);
        if c.Failure? {
          return Failure(c.error);
        }
        domain := c.value;
        return Success(true);
      }
      return Success(false);
    }

    /** handleDomainChange with the lookup by the requested domain's key. */
    method HandleDomainChangeIntended(requested: Domain, domains: Option<map<string, Domain>>) returns (r: Result<bool, string>)
      modifies this
      ensures requested.key == old(domain.key) ==> r == Success(false) && domain == old(domain)
      ensures requested.key != old(domain.key) ==>
        var c := ChosenDomainIntended(domains, requested, defaultDomain);
        && (c.Failure? ==> r == Failure(c.error) && domain == old(domain))
        && (c.Success? ==> r == Success(true) && domain == c.value)
      ensures request == old(request) && query == old(query) && metric == old(metric)
      ensures usedMetric == old(usedMetric) && response == old(response)
    {
      if requested.key != domain.key {
        var c := ChosenDomainIntended(domains, requested, defaultDomain);
        if c.Failure? {
          return Failure(c.error);
        }
        domain := c.value;
        return Success(true);
      }
      return Success(false);
    }

    /** The search object update() sends for the current state and the query prop. */
    function Search(propsQuery: Option<Fields>): Fields
      reads this, request, query
    {
      SearchObject(request.fields, query.fields, domain.key, metric, defaultMetric, propsQuery)
    }

    /**
     * The answer to a search: a response whose statistics are readable sets
     * the response and the metric UsedMetric finds; a response that throws on
     * the way keeps the metric, shows the empty response and hands the error
     * to raiseError (raised).
     */
    method SearchAnswered(answer: JsValue) returns (raised: Option<string>)
      modifies this
      ensures var u := AnswerMetric(answer, defaultMetric);
        && (u.Failure? ==> response == EmptyResponse && usedMetric == old(usedMetric) && raised == Some(u.error))
        && (u.Success? ==> response == answer && usedMetric == u.value && raised.None?)
      ensures request == old(request) && query == old(query) && metric == old(metric) && domain == old(domain)
    {
      var u := AnswerMetric(answer, defaultMetric);
      raised := None;
      if u.Failure? {
        response := EmptyResponse;
        raised := Some(u.error);
      } else {
        response := answer;
        usedMetric := u.value;
      }
    }

    /**
     * componentDidUpdate: search again iff the query, request or metric state
     * changed (objects by identity), the update prop changed, or the query
     * prop is not equivalent to the previous one (`isEquivalent`, not part of
     * this model, is a parameter).
     */
    function ShouldSearch(prevQuery: JsObject, prevRequest: JsObject, prevMetric: string,
                          prevUpdate: Option<int>, update: Option<int>,
                          prevPropsQuery: Option<Fields>, propsQuery: Option<Fields>,
                          isEquivalent: (Fields, Fields) -> bool): (r: bool)
      reads this
      ensures !r ==> prevQuery == query && prevRequest == request && prevMetric == metric && prevUpdate == update
      ensures (prevQuery != query || prevRequest != request || prevMetric != metric) ==> r
    {
      prevQuery != query || prevRequest != request || prevMetric != metric || prevUpdate != update
      || !isEquivalent(prevPropsQuery.GetOr([]), propsQuery.GetOr([]))
    }
  }

  /**
   * Every request change makes a new request object, so it is always followed
   * by a search, even when it changes no value.
   */
  method RequestChangeSearches(c: SearchContext, changes: JsObject, update: Option<int>, propsQuery: Option<Fields>, isEquivalent: (Fields, Fields) -> bool)
    returns (searched: bool)
    modifies c
    ensures searched
  {
    var q, r, m := c.query, c.request, c.metric;
    c.HandleRequestChange(changes);
    searched := c.ShouldSearch(q, r, m, update, update, propsQuery, propsQuery, isEquivalent);
  }

  /**
   * A domain change to the current key changes no state, so it is followed by
   * a search only when a prop changed.
   */
  method SameDomainNoSearch(c: SearchContext, requested: Domain, domains: Option<map<string, Domain>>, update: Option<int>, propsQuery: Option<Fields>)
    returns (r: Result<bool, string>, searched: bool)
    requires requested.key == c.domain.key
    modifies c
    ensures r == Success(false) && !searched
  {
    var q, rq, m := c.query, c.request, c.metric;
    r := c.HandleDomainChange(requested, domains);
    searched := c.ShouldSearch(q, rq, m, update, update, propsQuery, propsQuery, (a: Fields, b: Fields) => a == b);
  }
}
