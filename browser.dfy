/**
 * The archive browser's lane logic: the route's pathname is cut into segments,
 * each segment opens one more lane to the right, and every lane's adaptor is
 * obtained from its left neighbour (or from a cache that outlives renders).
 */
module ArchiveBrowser {
  import opened Wrappers
  import opened Strings

  // ---------------------------------------------------------------------------
  // Adaptors

  /**
   * An adaptor object: its identity, the name of the class it was built as and
   * the element it wraps. Each `new` gives a different identity, so two
   * adaptors are equal exactly when they are the same object, as `useMemo`
   * compares its dependencies.
   */
  datatype Adaptor = Adaptor(id: nat, cls: string, e: int)

  /** The abstract base class's name. */
  const AbstractAdaptor := "Adaptor"

  /** What an adaptor slot holds in JavaScript: null, or an adaptor. */
  type AdaptorValue = Option<Adaptor>

  /**
   * A subclass's itemAdaptor(key). The subclasses are not part of this model,
   * so the method is a parameter of everything that calls it.
   */
  type ItemAdaptorFn = (Adaptor, string) -> AdaptorValue

  /**
   * `new C(e)`, allocating the object with identity id: construction fails
   * exactly when C is the abstract base itself.
   */
  function NewAdaptor(cls: string, e: int, id: nat): (r: Result<Adaptor, string>)
    ensures r.Success? <==> cls != AbstractAdaptor
    ensures r.Success? ==> r.value.id == id && r.value.e == e && r.value.cls != AbstractAdaptor
    ensures r.Failure? ==> r.error == "TypeError"
  {
    if cls == AbstractAdaptor then Failure("TypeError") else Success(Adaptor(id, cls, e))
  }

  /** The base class's itemAdaptor: a subclass that does not override it has no children. */
  function BaseItemAdaptor(a: Adaptor, key: string): (r: AdaptorValue)
    ensures r.None?
  {
    None
  }

  /** The base class's render: nothing. */
  function BaseRender(a: Adaptor): (r: string)
    ensures |r| == 0
  {
    ""
  }

  // ---------------------------------------------------------------------------
  // Paths and segments

  /** The root lane's path: the route url with one trailing '/' removed. */
  function RootPath(url: string): (r: string)
    ensures EndsWith(url, "/") ==> r + "/" == url
    ensures !EndsWith(url, "/") ==> r == url
  {
    if EndsWith(url, "/") then url[..|url| - 1] else url
  }

  /** JavaScript's s.substring(n): the suffix from n, or "" when n is past the end. */
  function Substring(s: string, n: nat): (r: string)
    ensures n <= |s| ==> s == s[..n] + r
    ensures n > |s| ==> r == ""
  {
    if n <= |s| then s[n..] else ""
  }

  /** The pieces that are not empty, in their order. */
  function NonEmpty(pieces: seq<string>): (r: seq<string>)
    ensures forall k | 0 <= k < |r| :: r[k] != "" && r[k] in pieces
    ensures (forall k | 0 <= k < |pieces| :: pieces[k] != "") ==> r == pieces
  {
    if pieces == [] then []
    else if pieces[0] == "" then NonEmpty(pieces[1..])
    else [pieces[0]] + NonEmpty(pieces[1..])
  }

  /** Segments the way links are built from them: not empty, no '/' inside. */
  predicate CleanSegments(segs: seq<string>) {
    forall k | 0 <= k < |segs| :: segs[k] != "" && NoChar(segs[k], '/')
  }

  /** The archive path below the route: the pathname after the url, split on '/', empty segments dropped. */
  function Segments(pathname: string, url: string): (r: seq<string>)
    ensures CleanSegments(r)
  {
    NonEmpty(Split(Substring(pathname, |url|), '/'))
  }

  /** "/s0/s1/.../sn": what the lanes for segments s append to the root path. */
  function Slashed(segs: seq<string>): (r: string)
    decreases |segs|
  {
    if segs == [] then "" else Slashed(segs[..|segs| - 1]) + "/" + segs[|segs| - 1]
  }

  /** A path made for n segments is longer than the one made for fewer of them. */
  lemma {:induction false} SlashedLonger(segs: seq<string>, i: nat, j: nat)
    requires i < j <= |segs|
    ensures |Slashed(segs[..i])| < |Slashed(segs[..j])|
    decreases j
  {
    assert segs[..j][..j - 1] == segs[..j - 1];
    if i < j - 1 {
      SlashedLonger(segs, i, j - 1);
    }
  }

  lemma SlashedSnoc(segs: seq<string>)
    requires segs != []
    ensures Slashed(segs) == Slashed(segs[..|segs| - 1]) + "/" + segs[|segs| - 1]
  {
  }

  lemma {:induction false} SlashedCons(x: string, segs: seq<string>)
    ensures Slashed([x] + segs) == "/" + (x + Slashed(segs))
    decreases |segs|
  {
    if segs != [] {
      var n := |segs| - 1;
      assert ([x] + segs)[..n + 1] == [x] + segs[..n];
      SlashedCons(x, segs[..n]);
      assert "/" + (x + Slashed(segs[..n])) + "/" + segs[n] == "/" + (x + (Slashed(segs[..n]) + "/" + segs[n]));
    } else {
      assert ([x] + segs)[..0] == [];
    }
  }

  /** Splitting s0 + "/s1/.../sn" on '/' gives back the segments. */
  lemma {:induction false} SplitSlashed(segs: seq<string>)
    requires segs != []
    requires forall k | 0 <= k < |segs| :: NoChar(segs[k], '/')
    ensures Split(segs[0] + Slashed(segs[1..]), '/') == segs
    decreases |segs|
  {
    var rest := segs[1..];
    if rest == [] {
      assert segs[0] + Slashed(rest) == segs[0];
      SplitNoChar(segs[0], '/');
    } else {
      SlashedCons(rest[0], rest[1..]);
      assert [rest[0]] + rest[1..] == rest;
      assert Slashed(rest) == "/" + (rest[0] + Slashed(rest[1..]));
      assert segs[0] + ("/" + (rest[0] + Slashed(rest[1..]))) == segs[0] + ['/'] + (rest[0] + Slashed(rest[1..]));
      SplitConcat(segs[0], rest[0] + Slashed(rest[1..]), '/');
      SplitSlashed(rest);
      assert [segs[0]] + rest == segs;
    }
  }

  /** The pathname below url of the root path followed by "/" + tail. */
  lemma RootSuffix(url: string, tail: string)
    ensures Substring(RootPath(url) + ("/" + tail), |url|) == if EndsWith(url, "/") then tail else "/" + tail
  {
    var p := RootPath(url);
    assert p + ("/" + tail) == (p + "/") + tail;
    if !EndsWith(url, "/") {
      assert (p + ("/" + tail))[|url|..] == "/" + tail;
    }
  }

  /** The root path itself has no segments below url. */
  lemma RootNoSegments(url: string)
    ensures Segments(RootPath(url), url) == []
  {
    assert Substring(RootPath(url), |url|) == "";
    assert Split("", '/') == [""];
  }

  lemma CleanAppend(segs: seq<string>, x: string)
    requires CleanSegments(segs) && x != "" && NoChar(x, '/')
    ensures CleanSegments(segs + [x])
  {
    var s := segs + [x];
    forall k | 0 <= k < |s| ensures s[k] != "" && NoChar(s[k], '/') {
      if k < |segs| {
        assert s[k] == segs[k];
      }
    }
  }

  /** The segments of the root path followed by "/" + tail, when tail is s0 + "/s1/.../sn". */
  lemma SegmentsOfTail(url: string, segs: seq<string>, tail: string)
    requires segs != []
    requires CleanSegments(segs)
    requires tail == segs[0] + Slashed(segs[1..])
    ensures Segments(RootPath(url) + ("/" + tail), url) == segs
  {
    SplitSlashed(segs);
    RootSuffix(url, tail);
    if !EndsWith(url, "/") {
      SplitConcat("", tail, '/');
      assert "" + ['/'] + tail == "/" + tail;
    }
  }

  /**
   * Following a link built from the root path and some segments leads back to
   * exactly those segments.
   */
  lemma SegmentsOfSlashed(url: string, segs: seq<string>)
    requires CleanSegments(segs)
    ensures Segments(RootPath(url) + Slashed(segs), url) == segs
  {
    if segs == [] {
      assert RootPath(url) + Slashed(segs) == RootPath(url);
      RootNoSegments(url);
    } else {
      var x, rest := segs[0], segs[1..];
      var tail := x + Slashed(rest);
      SlashedCons(x, rest);
      assert [x] + rest == segs;
      assert Slashed(segs) == "/" + tail;
      SegmentsOfTail(url, segs, tail);
    }
  }

  // ---------------------------------------------------------------------------
  // The lane loop, on values

  /** Whether the cache holds a truthy (non-null) adaptor for path. */
  predicate Cached(memo: map<string, AdaptorValue>, path: string) {
    path in memo && memo[path].Some?
  }

  /**
   * The state of the lane loop: the lanes' paths and adaptors so far, the
   * adaptor cache, the paths itemAdaptor was called for, and whether a lookup
   * threw (itemAdaptor called on a null adaptor).
   */
  datatype Built = Built(paths: seq<string>, adaptors: seq<AdaptorValue>, memo: map<string, AdaptorValue>, calls: seq<string>, failed: bool)

  /** One iteration for segment seg: `memo[path] || prev.adaptor.itemAdaptor(seg)`, then cache and push. */
  function Step(b: Built, seg: string, itemAdaptor: ItemAdaptorFn): (r: Built)
    requires |b.paths| == |b.adaptors| > 0
    ensures |r.paths| == |r.adaptors| > 0 && |r.paths| <= |b.paths| + 1
  {
    if b.failed then b
    else
      var prev := b.adaptors[|b.adaptors| - 1];
      var path := b.paths[|b.paths| - 1] + "/" + seg;
      if Cached(b.memo, path) then
        Built(b.paths + [path], b.adaptors + [b.memo[path]], b.memo[path := b.memo[path]], b.calls, false)
      else if prev.None? then
        b.(failed := true)
      else
        var a := itemAdaptor(prev.value, seg);
        Built(b.paths + [path], b.adaptors + [a], b.memo[path := a], b.calls + [path], false)
  }

  /** The loop over all segments, starting from the root lane and the cache memo. */
  function Build(rootPath: string, root: AdaptorValue, segs: seq<string>, memo: map<string, AdaptorValue>, itemAdaptor: ItemAdaptorFn): (r: Built)
    ensures |r.paths| == |r.adaptors| > 0 && |r.paths| <= |segs| + 1
    decreases |segs|
  {
    if segs == [] then Built([rootPath], [root], memo, [], false)
    else Step(Build(rootPath, root, segs[..|segs| - 1], memo, itemAdaptor), segs[|segs| - 1], itemAdaptor)
  }

  /** Once a lookup threw, later segments change nothing. */
  lemma {:induction false} BuildFailed(rootPath: string, root: AdaptorValue, segs: seq<string>, k: nat, memo: map<string, AdaptorValue>, itemAdaptor: ItemAdaptorFn)
    requires k <= |segs|
    requires Build(rootPath, root, segs[..k], memo, itemAdaptor).failed
    ensures Build(rootPath, root, segs, memo, itemAdaptor) == Build(rootPath, root, segs[..k], memo, itemAdaptor)
    decreases |segs|
  {
    if k < |segs| {
      var n := |segs| - 1;
      assert segs[..n][..k] == segs[..k];
      BuildFailed(rootPath, root, segs[..n], k, memo, itemAdaptor);
    } else {
      assert segs[..k] == segs;
    }
  }

  /** The step from the prefix without the last segment. */
  lemma BuildLast(rootPath: string, root: AdaptorValue, segs: seq<string>, memo: map<string, AdaptorValue>, itemAdaptor: ItemAdaptorFn)
    requires segs != []
    ensures Build(rootPath, root, segs, memo, itemAdaptor)
         == Step(Build(rootPath, root, segs[..|segs| - 1], memo, itemAdaptor), segs[|segs| - 1], itemAdaptor)
  {
  }

  /** The loop state after i + 1 segments is one step from the state after i. */
  lemma BuildNext(rootPath: string, root: AdaptorValue, segs: seq<string>, i: nat, memo: map<string, AdaptorValue>, itemAdaptor: ItemAdaptorFn, b: Built)
    requires i < |segs| && b == Build(rootPath, root, segs[..i], memo, itemAdaptor)
    ensures Build(rootPath, root, segs[..i + 1], memo, itemAdaptor) == Step(b, segs[i], itemAdaptor)
  {
    assert segs[..i + 1][..i] == segs[..i];
    BuildLast(rootPath, root, segs[..i + 1], memo, itemAdaptor);
  }

  /** The three outcomes of a step, in the order the loop body tests them. */
  lemma StepCases(b: Built, seg: string, itemAdaptor: ItemAdaptorFn, path: string)
    requires |b.paths| == |b.adaptors| > 0 && !b.failed
    requires path == b.paths[|b.paths| - 1] + "/" + seg
    ensures Cached(b.memo, path) ==>
      Step(b, seg, itemAdaptor) == Built(b.paths + [path], b.adaptors + [b.memo[path]], b.memo[path := b.memo[path]], b.calls, false)
    ensures !Cached(b.memo, path) && b.adaptors[|b.adaptors| - 1].None? ==>
      Step(b, seg, itemAdaptor) == b.(failed := true)
    ensures !Cached(b.memo, path) && b.adaptors[|b.adaptors| - 1].Some? ==>
      var a := itemAdaptor(b.adaptors[|b.adaptors| - 1].value, seg);
      Step(b, seg, itemAdaptor) == Built(b.paths + [path], b.adaptors + [a], b.memo[path := a], b.calls + [path], false)
  {
  }

  /** One more lane: the new path is the last one, a '/' and the segment. */
  lemma StepPath(b: Built, seg: string, itemAdaptor: ItemAdaptorFn)
    requires |b.paths| == |b.adaptors| > 0
    ensures var r := Step(b, seg, itemAdaptor);
      && (r.failed ==> r.paths == b.paths && r.adaptors == b.adaptors && r.memo == b.memo && r.calls == b.calls)
      && (!r.failed ==> !b.failed && r.paths == b.paths + [b.paths[|b.paths| - 1] + "/" + seg])
  {
  }

  /** Lane 0 is the root; all segments get a lane unless a lookup threw. */
  lemma {:induction false} BuildShape(rootPath: string, root: AdaptorValue, segs: seq<string>, memo: map<string, AdaptorValue>, itemAdaptor: ItemAdaptorFn, b: Built)
    requires b == Build(rootPath, root, segs, memo, itemAdaptor)
    ensures b.paths[0] == rootPath && b.adaptors[0] == root
    ensures !b.failed ==> |b.paths| == |segs| + 1
    ensures b.failed ==> |b.paths| <= |segs|
    decreases |segs|
  {
    if segs != [] {
      var n := |segs| - 1;
      var a := Build(rootPath, root, segs[..n], memo, itemAdaptor);
      BuildShape(rootPath, root, segs[..n], memo, itemAdaptor, a);
      BuildLast(rootPath, root, segs, memo, itemAdaptor);
      StepPath(a, segs[n], itemAdaptor);
    }
  }

  /** The path formula survives one more step. */
  lemma StepPaths(rootPath: string, pre: seq<string>, seg: string, a: Built, itemAdaptor: ItemAdaptorFn)
    requires |a.paths| == |a.adaptors| > 0 && |a.paths| <= |pre| + 1
    requires !a.failed ==> |a.paths| == |pre| + 1
    requires forall j | 0 <= j < |a.paths| :: a.paths[j] == rootPath + Slashed(pre[..j])
    ensures var b := Step(a, seg, itemAdaptor);
      forall j | 0 <= j < |b.paths| :: b.paths[j] == rootPath + Slashed((pre + [seg])[..j])
  {
    var segs := pre + [seg];
    var b := Step(a, seg, itemAdaptor);
    StepPath(a, seg, itemAdaptor);
    forall j | 0 <= j < |a.paths| ensures b.paths[j] == rootPath + Slashed(segs[..j]) {
      assert segs[..j] == pre[..j];
      assert b.paths[j] == a.paths[j];
    }
    if !b.failed {
      var n := |pre|;
      assert b.paths[n + 1] == rootPath + Slashed(segs[..n + 1]) by {
        assert b.paths[n + 1] == a.paths[n] + "/" + seg;
        assert a.paths[n] == rootPath + Slashed(pre) by {
          assert pre[..n] == pre;
        }
        assert segs[..n + 1] == segs && segs[..n] == pre;
        SlashedSnoc(segs);
      }
    }
  }

  /** Lane j's path is the root path followed by the first j segments. */
  lemma {:induction false} BuildPaths(rootPath: string, root: AdaptorValue, segs: seq<string>, memo: map<string, AdaptorValue>, itemAdaptor: ItemAdaptorFn, b: Built)
    requires b == Build(rootPath, root, segs, memo, itemAdaptor)
    ensures forall j | 0 <= j < |b.paths| :: b.paths[j] == rootPath + Slashed(segs[..j])
    decreases |segs|
  {
    if segs != [] {
      var n := |segs| - 1;
      var pre := segs[..n];
      var a := Build(rootPath, root, pre, memo, itemAdaptor);
      BuildPaths(rootPath, root, pre, memo, itemAdaptor, a);
      BuildShape(rootPath, root, pre, memo, itemAdaptor, a);
      BuildLast(rootPath, root, segs, memo, itemAdaptor);
      StepPaths(rootPath, pre, segs[n], a, itemAdaptor);
      assert pre + [segs[n]] == segs;
    }
  }

  /** The paths grow strictly, so no two lanes share a path. */
  lemma {:induction false} BuildPathsGrow(rootPath: string, root: AdaptorValue, segs: seq<string>, memo: map<string, AdaptorValue>, itemAdaptor: ItemAdaptorFn, b: Built)
    requires b == Build(rootPath, root, segs, memo, itemAdaptor)
    ensures forall j, k | 0 <= j < k < |b.paths| :: |b.paths[j]| < |b.paths[k]|
    decreases |segs|
  {
    if segs != [] {
      var n := |segs| - 1;
      var a := Build(rootPath, root, segs[..n], memo, itemAdaptor);
      BuildPathsGrow(rootPath, root, segs[..n], memo, itemAdaptor, a);
      BuildLast(rootPath, root, segs, memo, itemAdaptor);
      StepPath(a, segs[n], itemAdaptor);
      if !b.failed {
        var last := a.paths[|a.paths| - 1];
        forall j | 0 <= j < |a.paths| ensures |a.paths[j]| <= |last| {
          if j < |a.paths| - 1 {
            assert |a.paths[j]| < |a.paths[|a.paths| - 1]|;
          }
        }
        assert |last| < |last + "/" + segs[n]|;
      }
    }
  }

  /**
   * The cache after the loop: every lane's path holds that lane's adaptor,
   * earlier entries survive, and entries for other paths are untouched.
   */
  lemma {:induction false} BuildCache(rootPath: string, root: AdaptorValue, segs: seq<string>, memo: map<string, AdaptorValue>, itemAdaptor: ItemAdaptorFn, b: Built)
    requires b == Build(rootPath, root, segs, memo, itemAdaptor)
    ensures forall j | 1 <= j < |b.paths| :: b.paths[j] in b.memo && b.memo[b.paths[j]] == b.adaptors[j]
    ensures forall p | p in memo :: p in b.memo
    ensures forall p | p in b.memo && (forall j | 1 <= j < |b.paths| :: b.paths[j] != p) :: p in memo && b.memo[p] == memo[p]
    decreases |segs|
  {
    if segs != [] {
      var n := |segs| - 1;
      var pre := segs[..n];
      var a := Build(rootPath, root, pre, memo, itemAdaptor);
      BuildCache(rootPath, root, pre, memo, itemAdaptor, a);
      BuildPathsGrow(rootPath, root, pre, memo, itemAdaptor, a);
      BuildLast(rootPath, root, segs, memo, itemAdaptor);
      StepCache(memo, a, segs[n], itemAdaptor);
    }
  }

  /** The cache facts of BuildCache survive one more step. */
  lemma StepCache(memo: map<string, AdaptorValue>, a: Built, seg: string, itemAdaptor: ItemAdaptorFn)
    requires |a.paths| == |a.adaptors| > 0
    requires forall j, k | 0 <= j < k < |a.paths| :: |a.paths[j]| < |a.paths[k]|
    requires forall j | 1 <= j < |a.paths| :: a.paths[j] in a.memo && a.memo[a.paths[j]] == a.adaptors[j]
    requires forall p | p in memo :: p in a.memo
    requires forall p | p in a.memo && (forall j | 1 <= j < |a.paths| :: a.paths[j] != p) :: p in memo && a.memo[p] == memo[p]
    ensures var b := Step(a, seg, itemAdaptor);
      && (forall j | 1 <= j < |b.paths| :: b.paths[j] in b.memo && b.memo[b.paths[j]] == b.adaptors[j])
      && (forall p | p in memo :: p in b.memo)
      && (forall p | p in b.memo && (forall j | 1 <= j < |b.paths| :: b.paths[j] != p) :: p in memo && b.memo[p] == memo[p])
  {
    var b := Step(a, seg, itemAdaptor);
    StepPath(a, seg, itemAdaptor);
    if !b.failed {
      var path := a.paths[|a.paths| - 1] + "/" + seg;
      assert forall j | 1 <= j < |a.paths| :: b.paths[j] == a.paths[j];
      assert b.paths[|a.paths|] == path;
      forall j | 1 <= j < |a.paths| ensures a.paths[j] != path {
        if j < |a.paths| - 1 {
          assert |a.paths[j]| < |a.paths[|a.paths| - 1]|;
        }
      }
      assert b.memo == a.memo[path := b.adaptors[|a.paths|]];
    }
  }

  /** A path longer than every lane's has the same cache entry as before the loop. */
  lemma BuildNewPath(rootPath: string, root: AdaptorValue, segs: seq<string>, memo: map<string, AdaptorValue>, itemAdaptor: ItemAdaptorFn, b: Built, path: string)
    requires b == Build(rootPath, root, segs, memo, itemAdaptor)
    requires |path| > |b.paths[|b.paths| - 1]|
    ensures (path in b.memo) == (path in memo)
    ensures path in memo ==> b.memo[path] == memo[path]
  {
    BuildCache(rootPath, root, segs, memo, itemAdaptor, b);
    BuildPathsGrow(rootPath, root, segs, memo, itemAdaptor, b);
    forall j | 1 <= j < |b.paths| ensures b.paths[j] != path {
      if j < |b.paths| - 1 {
        assert |b.paths[j]| < |b.paths[|b.paths| - 1]|;
      }
    }
  }

  /** How lane j + 1's adaptor was obtained, for the cache memo as it was before the loop. */
  predicate AdaptorRule(memo: map<string, AdaptorValue>, segs: seq<string>, b: Built, itemAdaptor: ItemAdaptorFn, j: nat)
    requires j + 1 < |b.paths| == |b.adaptors| && j < |segs|
  {
    if Cached(memo, b.paths[j + 1]) then b.adaptors[j + 1] == memo[b.paths[j + 1]]
    else b.adaptors[j].Some? && b.adaptors[j + 1] == itemAdaptor(b.adaptors[j].value, segs[j])
  }

  /** Where the loop threw: the next path was not cached and the last lane's adaptor is null. */
  predicate ThrewAt(memo: map<string, AdaptorValue>, segs: seq<string>, b: Built)
    requires 0 < |b.paths| == |b.adaptors|
  {
    var n := |b.paths| - 1;
    n < |segs| && !Cached(memo, b.paths[n] + "/" + segs[n]) && b.adaptors[n].None?
  }

  /** The adaptor rule and the throw point survive one more step. */
  lemma StepAdaptors(memo: map<string, AdaptorValue>, pre: seq<string>, seg: string, a: Built, itemAdaptor: ItemAdaptorFn)
    requires |a.paths| == |a.adaptors| > 0 && |a.paths| <= |pre| + 1
    requires !a.failed ==> |a.paths| == |pre| + 1
    requires forall j | 0 <= j < |a.paths| - 1 :: AdaptorRule(memo, pre, a, itemAdaptor, j)
    requires a.failed ==> ThrewAt(memo, pre, a)
    requires !a.failed ==>
      var path := a.paths[|a.paths| - 1] + "/" + seg;
      (path in a.memo) == (path in memo) && (path in memo ==> a.memo[path] == memo[path])
    ensures var b := Step(a, seg, itemAdaptor);
      var segs := pre + [seg];
      && |b.paths| <= |segs| + 1
      && (forall j | 0 <= j < |b.paths| - 1 :: AdaptorRule(memo, segs, b, itemAdaptor, j))
      && (b.failed ==> ThrewAt(memo, segs, b))
  {
    var segs := pre + [seg];
    var b := Step(a, seg, itemAdaptor);
    StepPath(a, seg, itemAdaptor);
    if a.failed {
      assert segs[|a.paths| - 1] == pre[|a.paths| - 1];
      forall j | 0 <= j < |b.paths| - 1 ensures AdaptorRule(memo, segs, b, itemAdaptor, j) {
        assert AdaptorRule(memo, pre, a, itemAdaptor, j);
        assert segs[j] == pre[j];
      }
    } else {
      var n := |pre|;
      assert segs[n] == seg;
      if !b.failed {
        assert b.adaptors == a.adaptors + [b.adaptors[n + 1]];
      } else {
        assert b.adaptors == a.adaptors;
      }
      forall j | 0 <= j < |b.paths| - 1 ensures AdaptorRule(memo, segs, b, itemAdaptor, j) {
        if j < n {
          assert AdaptorRule(memo, pre, a, itemAdaptor, j);
          assert segs[j] == pre[j];
          assert b.paths[j + 1] == a.paths[j + 1] && b.adaptors[j] == a.adaptors[j] && b.adaptors[j + 1] == a.adaptors[j + 1];
        }
      }
    }
  }

  /**
   * Each lane's adaptor is the cached one for its path when the cache held a
   * non-null adaptor there before the loop, else its left neighbour's
   * itemAdaptor of its segment; the loop threw exactly at a lane whose path was
   * not cached and whose left neighbour's adaptor was null.
   */
  lemma {:induction false} BuildAdaptors(rootPath: string, root: AdaptorValue, segs: seq<string>, memo: map<string, AdaptorValue>, itemAdaptor: ItemAdaptorFn, b: Built)
    requires b == Build(rootPath, root, segs, memo, itemAdaptor)
    ensures forall j | 0 <= j < |b.paths| - 1 :: AdaptorRule(memo, segs, b, itemAdaptor, j)
    ensures b.failed ==> ThrewAt(memo, segs, b)
    decreases |segs|
  {
    if segs != [] {
      var n := |segs| - 1;
      var pre := segs[..n];
      var a := Build(rootPath, root, pre, memo, itemAdaptor);
      BuildAdaptors(rootPath, root, pre, memo, itemAdaptor, a);
      BuildShape(rootPath, root, pre, memo, itemAdaptor, a);
      BuildLast(rootPath, root, segs, memo, itemAdaptor);
      if !a.failed {
        var path := a.paths[|a.paths| - 1] + "/" + segs[n];
        BuildNewPath(rootPath, root, pre, memo, itemAdaptor, a, path);
      }
      StepAdaptors(memo, pre, segs[n], a, itemAdaptor);
      assert pre + [segs[n]] == segs;
    }
  }

  /** What itemAdaptor was called for, after some steps. */
  predicate CallsOk(memo: map<string, AdaptorValue>, b: Built)
    requires 0 < |b.paths|
  {
    && (forall k | 0 <= k < |b.calls| :: !Cached(memo, b.calls[k]) && b.calls[k] in b.memo)
    && (forall j, k | 0 <= j < k < |b.calls| :: |b.calls[j]| < |b.calls[k]|)
    && (forall k | 0 <= k < |b.calls| :: |b.calls[k]| <= |b.paths[|b.paths| - 1]|)
    && (forall j | 1 <= j < |b.paths| :: !Cached(memo, b.paths[j]) ==> b.paths[j] in b.calls)
  }

  /** The call bookkeeping survives one more step. */
  lemma StepCalls(memo: map<string, AdaptorValue>, seg: string, a: Built, itemAdaptor: ItemAdaptorFn)
    requires |a.paths| == |a.adaptors| > 0
    requires CallsOk(memo, a)
    requires !a.failed ==>
      var path := a.paths[|a.paths| - 1] + "/" + seg;
      (path in a.memo) == (path in memo) && (path in memo ==> a.memo[path] == memo[path])
    ensures CallsOk(memo, Step(a, seg, itemAdaptor))
  {
    var b := Step(a, seg, itemAdaptor);
    StepPath(a, seg, itemAdaptor);
    if !b.failed {
      var path := a.paths[|a.paths| - 1] + "/" + seg;
      assert |path| > |a.paths[|a.paths| - 1]|;
      assert b.paths[|a.paths|] == path;
      assert forall j | 1 <= j < |a.paths| :: b.paths[j] == a.paths[j];
      assert forall k | 0 <= k < |a.calls| :: a.calls[k] in b.memo;
    }
  }

  /**
   * itemAdaptor is called once for every lane whose path was not cached
   * before, and for no other path; the called paths grow strictly (so they are
   * distinct) and are all in the cache afterwards.
   */
  lemma {:induction false} BuildCalls(rootPath: string, root: AdaptorValue, segs: seq<string>, memo: map<string, AdaptorValue>, itemAdaptor: ItemAdaptorFn, b: Built)
    requires b == Build(rootPath, root, segs, memo, itemAdaptor)
    ensures CallsOk(memo, b)
    decreases |segs|
  {
    if segs != [] {
      var n := |segs| - 1;
      var pre := segs[..n];
      var a := Build(rootPath, root, pre, memo, itemAdaptor);
      BuildCalls(rootPath, root, pre, memo, itemAdaptor, a);
      BuildLast(rootPath, root, segs, memo, itemAdaptor);
      if !a.failed {
        var path := a.paths[|a.paths| - 1] + "/" + segs[n];
        BuildNewPath(rootPath, root, pre, memo, itemAdaptor, a, path);
      }
      StepCalls(memo, segs[n], a, itemAdaptor);
    }
  }

  /**
   * A lane's pane: `adaptor.render()`, evaluated while the lane itself renders.
   * A null adaptor makes the lane's render throw a TypeError, which the lane's
   * own ErrorHandler cannot catch, since it is not yet rendered.
   */
  function Pane(a: AdaptorValue, render: Adaptor -> string): (r: Result<string, string>)
    ensures r.Failure? <==> a.None?
  {
    if a.None? then Failure("TypeError") else Success(render(a.value))
  }

  /**
   * The base adaptor on its own, with an empty cache: its itemAdaptor gives the
   * first segment's lane a null adaptor, whose render throws a TypeError that
   * its own ErrorHandler cannot catch, while the root pane is empty; a second segment makes the lane loop
   * throw, because it then calls itemAdaptor on null.
   */
  lemma BaseAdaptorLanes(rootPath: string, root: Adaptor, segs: seq<string>)
    requires segs != []
    ensures var b := Build(rootPath, Some(root), segs, map[], BaseItemAdaptor);
      && |b.paths| == 2 && Pane(b.adaptors[0], BaseRender) == Success("")
      && b.adaptors[1].None? && Pane(b.adaptors[1], BaseRender).Failure?
      && (b.failed <==> |segs| >= 2)
  {
    var b0 := Build(rootPath, Some(root), [], map[], BaseItemAdaptor);
    var p := rootPath + "/" + segs[0];
    assert segs[..1][..0] == [];
    var b1 := Build(rootPath, Some(root), segs[..1], map[], BaseItemAdaptor);
    assert b1 == Step(b0, segs[0], BaseItemAdaptor);
    assert b1 == Built([rootPath, p], [Some(root), None], map[p := None], [p], false);
    if |segs| >= 2 {
      var b2 := Build(rootPath, Some(root), segs[..2], map[], BaseItemAdaptor);
      assert segs[..2][..1] == segs[..1];
      assert b2 == Step(b1, segs[1], BaseItemAdaptor);
      assert !Cached(b1.memo, p + "/" + segs[1]);
      assert b2 == b1.(failed := true);
      BuildFailed(rootPath, Some(root), segs, 2, map[], BaseItemAdaptor);
    } else {
      assert segs[..1] == segs;
    }
  }

  // ---------------------------------------------------------------------------
  // Lanes and the browser

  /** One column of the browser: a key, the path it shows, its adaptor and the lane to its right. */
  class Lane {
    const key: string
    const path: string
    const adaptor: AdaptorValue
    var next: Lane?

    constructor (key: string, path: string, adaptor: AdaptorValue)
      ensures this.key == key && this.path == path && this.adaptor == adaptor
      ensures next == null
    {
      this.key := key;
      this.path := path;
      this.adaptor := adaptor;
      next := null;
    }
  }

  /** How an Item renders: disabled (plain text), or a link that may be highlighted. */
  datatype ItemView = Disabled | Link(selected: bool, to: string)

  /** An Item of lane: selected iff the lane to the right is the item's; it links one level deeper. */
  function Item(lane: Lane, itemKey: string, disabled: bool): (r: ItemView)
    reads lane
    ensures r.Disabled? <==> disabled
    ensures r.Link? ==> (r.selected <==> lane.next != null && lane.next.key == itemKey)
    ensures r.Link? ==> r.to == lane.path + "/" + itemKey
  {
    if disabled then Disabled
    else Link(lane.next != null && lane.next.key == itemKey, lane.path + "/" + itemKey)
  }

  /**
   * The link of an item in the lane for segs leads to the page whose segments
   * are segs plus the item's key, so there the item's lane is the next one.
   */
  lemma ItemLinkSegments(url: string, segs: seq<string>, itemKey: string)
    requires CleanSegments(segs)
    requires itemKey != "" && NoChar(itemKey, '/')
    ensures Segments(RootPath(url) + Slashed(segs) + "/" + itemKey, url) == segs + [itemKey]
  {
    var s := segs + [itemKey];
    assert s[..|s| - 1] == segs;
    assert Slashed(s) == Slashed(segs) + "/" + itemKey;
    assert RootPath(url) + Slashed(s) == RootPath(url) + Slashed(segs) + "/" + itemKey;
    CleanAppend(segs, itemKey);
    SegmentsOfSlashed(url, s);
  }

  /** The lanes show the given paths and adaptors, and lane j + 1 is keyed by segment j. */
  ghost predicate LanesShow(lanes: seq<Lane>, paths: seq<string>, vals: seq<AdaptorValue>, segs: seq<string>) {
    && |lanes| == |paths| == |vals| && |lanes| <= |segs| + 1
    && (forall j | 0 <= j < |lanes| :: lanes[j].path == paths[j] && lanes[j].adaptor == vals[j])
    && (forall j | 1 <= j < |lanes| :: lanes[j].key == segs[j - 1])
  }

  lemma LanesShowSnoc(lanes: seq<Lane>, paths: seq<string>, vals: seq<AdaptorValue>, segs: seq<string>, lane: Lane)
    requires LanesShow(lanes, paths, vals, segs) && 0 < |lanes| <= |segs|
    requires lane.key == segs[|lanes| - 1]
    ensures LanesShow(lanes + [lane], paths + [lane.path], vals + [lane.adaptor], segs)
  {
  }

  /** Each lane's next is the lane to its right. */
  ghost predicate Linked(lanes: seq<Lane>)
    reads set j | 0 <= j < |lanes| :: lanes[j]
  {
    forall j | 0 <= j < |lanes| - 1 :: lanes[j].next == lanes[j + 1]
  }

  /** No lane object occurs twice. */
  ghost predicate Distinct(lanes: seq<Lane>) {
    forall j, k | 0 <= j < k < |lanes| :: lanes[j] != lanes[k]
  }

  /**
   * Linking the last lane to a new one keeps the chain and the lanes distinct, when the
   * older lanes were left alone.
   */
  twostate lemma LinkedSnoc(lanes: seq<Lane>, new lane: Lane)
    requires lanes != [] && old(Linked(lanes)) && Distinct(lanes)
    requires fresh(lane) && lanes[|lanes| - 1].next == lane
    requires forall j | 0 <= j < |lanes| - 1 :: lanes[j].next == old(lanes[j].next)
    ensures Linked(lanes + [lane]) && Distinct(lanes + [lane])
  {
    var ls := lanes + [lane];
    forall j, k | 0 <= j < k < |ls| ensures ls[j] != ls[k] {
      if k == |lanes| {
        assert old(allocated(ls[j]));
      }
    }
  }

  /** The Browser component's memoised state: the root lane and the adaptor cache. */
  class Browser {
    var rootAdaptor: Adaptor
    var rootUrl: string
    var root: Lane
    var memoedAdapters: map<string, AdaptorValue>

    /** The root lane is the one built for the current adaptor and url. */
    predicate Valid()
      reads this
    {
      root.key == "root" && root.path == RootPath(rootUrl) && root.adaptor == Some(rootAdaptor)
    }

    /** The first render: a fresh root lane and an empty cache. */
    constructor (adaptor: Adaptor, url: string)
      ensures Valid()
      ensures rootAdaptor == adaptor && rootUrl == url && fresh(root) && root.next == null
      ensures memoedAdapters == map[]
    {
      rootAdaptor := adaptor;
      rootUrl := url;
      root := new Lane("root", RootPath(url), Some(adaptor));
      memoedAdapters := map[];
    }

    /**
     * One iteration of the lane loop, after lane prev: the adaptor for
     * prev's path plus seg is the cached one when there is one, else the
     * one prev's adaptor gives (a TypeError when prev has none, shown by
     * returning null); it is cached and a new lane for it is linked from prev.
     */
    method Advance(prev: Lane, seg: string, itemAdaptor: ItemAdaptorFn, calls: seq<string>, ghost st: Built)
      returns (lane: Lane?, calls': seq<string>)
      requires |st.paths| == |st.adaptors| > 0 && !st.failed
      requires prev.path == st.paths[|st.paths| - 1] && prev.adaptor == st.adaptors[|st.adaptors| - 1]
      requires memoedAdapters == st.memo && calls == st.calls
      modifies this`memoedAdapters, prev
      ensures var nb := Step(st, seg, itemAdaptor);
        && (lane != null <==> !nb.failed)
        && memoedAdapters == nb.memo && calls' == nb.calls
      ensures lane == null ==> prev.next == old(prev.next)
      ensures lane != null ==>
        var nb := Step(st, seg, itemAdaptor);
        && fresh(lane) && lane.key == seg && lane.next == null && prev.next == lane
        && nb.paths == st.paths + [lane.path] && nb.adaptors == st.adaptors + [lane.adaptor]
    {
      var path := prev.path + "/" + seg;
      StepCases(st, seg, itemAdaptor, path);
      var adaptor';
      calls' := calls;
      if Cached(memoedAdapters, path) {
        adaptor' := memoedAdapters[path];
      } else if prev.adaptor.None? {
        return null, calls';
      } else {
        adaptor' := itemAdaptor(prev.adaptor.value, seg);
        calls' := calls + [path];
      }
      memoedAdapters := memoedAdapters[path := adaptor'];
      lane := new Lane(seg, path, adaptor');
      prev.next := lane;
    }

    /**
     * The lane loop, from the lane first: one more lane per segment (see
     * Advance). Returns the lanes, or the TypeError of calling itemAdaptor on
     * a null adaptor, and the paths itemAdaptor was called for.
     */
    method Lanes(first: Lane, segs: seq<string>, itemAdaptor: ItemAdaptorFn)
      returns (r: Result<seq<Lane>, string>, calls: seq<string>)
      modifies this`memoedAdapters, first
      ensures var b := Build(first.path, first.adaptor, segs, old(memoedAdapters), itemAdaptor);
        && (r.Success? <==> !b.failed)
        && memoedAdapters == b.memo
        && calls == b.calls
      ensures r.Failure? ==> r.error == "TypeError"
      ensures r.Success? ==>
        var b := Build(first.path, first.adaptor, segs, old(memoedAdapters), itemAdaptor);
        var lanes := r.value;
        && LanesShow(lanes, b.paths, b.adaptors, segs) && lanes[0] == first
        && (forall i | 1 <= i < |lanes| :: fresh(lanes[i]))
        && Linked(lanes)
        && (|lanes| > 1 ==> lanes[|lanes| - 1].next == null)
      ensures segs == [] ==> first.next == old(first.next)
    {
      ghost var m0 := memoedAdapters;
      ghost var st := Built([first.path], [first.adaptor], m0, [], false);
      var lanes: seq<Lane> := [first];
      calls := [];
      var i := 0;
      assert Build(first.path, first.adaptor, segs[..0], m0, itemAdaptor) == st by {
        assert segs[..0] == [];
      }
      while i < |segs|
        invariant 0 <= i <= |segs|
        invariant Build(first.path, first.adaptor, segs[..i], m0, itemAdaptor) == st && !st.failed
        invariant memoedAdapters == st.memo && calls == st.calls
        invariant |lanes| == i + 1 && lanes[0] == first
        invariant LanesShow(lanes, st.paths, st.adaptors, segs)
        invariant forall j | 1 <= j <= i :: fresh(lanes[j])
        invariant Linked(lanes) && Distinct(lanes)
        invariant i > 0 ==> lanes[i].next == null
        invariant i == 0 ==> first.next == old(first.next)
      {
        var prev := lanes[i];
        BuildNext(first.path, first.adaptor, segs, i, m0, itemAdaptor, st);
        label linking:
        var lane;
        lane, calls := Advance(prev, segs[i], itemAdaptor, calls, st);
        if lane == null {
          BuildFailed(first.path, first.adaptor, segs, i + 1, m0, itemAdaptor);
          return Failure("TypeError"), calls;
        }
        LanesShowSnoc(lanes, st.paths, st.adaptors, segs, lane);
        assert forall j | 0 <= j < i :: lanes[j] != prev;
        LinkedSnoc@linking(lanes, lane);
        lanes := lanes + [lane];
        st := Step(st, segs[i], itemAdaptor);
        i := i + 1;
      }
      assert segs[..i] == segs;
      r := Success(lanes);
    }

    /**
     * One render: rebuild the root lane when the adaptor or url changed, then
     * run the lane loop over the segments of the pathname below url.
     */
    method Render(adaptor: Adaptor, url: string, pathname: string, itemAdaptor: ItemAdaptorFn)
      returns (r: Result<seq<Lane>, string>, calls: seq<string>)
      requires Valid()
      modifies this, root
      ensures Valid() && rootAdaptor == adaptor && rootUrl == url
      ensures old(rootAdaptor) == adaptor && old(rootUrl) == url ==> root == old(root)
      ensures !(old(rootAdaptor) == adaptor && old(rootUrl) == url) ==> fresh(root)
      ensures var b := Build(RootPath(url), Some(adaptor), Segments(pathname, url), old(memoedAdapters), itemAdaptor);
        && (r.Success? <==> !b.failed)
        && memoedAdapters == b.memo
        && calls == b.calls
      ensures r.Failure? ==> r.error == "TypeError"
      ensures r.Success? ==>
        var segs := Segments(pathname, url);
        var b := Build(RootPath(url), Some(adaptor), segs, old(memoedAdapters), itemAdaptor);
        var lanes := r.value;
        && LanesShow(lanes, b.paths, b.adaptors, segs) && lanes[0] == root
        && (forall i | 1 <= i < |lanes| :: fresh(lanes[i]))
        && Linked(lanes)
        && (|lanes| > 1 ==> lanes[|lanes| - 1].next == null)
      ensures Segments(pathname, url) == [] && root == old(root) ==> root.next == old(root.next)
    {
      if !(rootAdaptor == adaptor && rootUrl == url) {
        rootAdaptor := adaptor;
        rootUrl := url;
        root := new Lane("root", RootPath(url), Some(adaptor));
      }
      r, calls := Lanes(root, Segments(pathname, url), itemAdaptor);
    }
  }
}
