/**
 * Metainfo references between archives (nomad/datamodel/context.py): parsing reference
 * URLs, normalising the installation URL, writing a reference to a section of another
 * archive, replacing mainfile references by entry references, and the two-way cache of
 * resolved archives.
 *
 * The two reference regular expressions are written out as the searches Python's
 * backtracking engine performs, alternative by alternative in its priority order.
 */
module MetainfoContext {
  import opened Wrappers
  import opened Strings
  import Urls

  datatype Kind = Archive | Raw

  /** A hash of (upload id, mainfile): utils.generate_entry_id, left uninterpreted. */
  type EntryIdGenerator = (Option<string>, string) -> string

  // ---------------------------------------------------------------------------
  // The two reference forms

  /**
   * One character of `[\w=-]` (ASCII word characters). Every other class in the two
   * expressions is `[^?]`; since every character before the `$` is consumed by such a
   * class or by a literal without `?`, a URL containing `?` matches neither form.
   */
  predicate IsUploadIdChar(c: char) {
    IsAsciiAlnum(c) || c == '_' || c == '=' || c == '-'
  }

  /** Where `$` matches: the end, or just before a final newline. */
  predicate AtEnd(u: string, i: nat) {
    i == |u| || (i + 1 == |u| && u[i] == '\n')
  }

  /** `([^?]+?)$` from c in a string without `?`: the end of the shortest non-empty group before `$`. */
  function LazyToEnd(u: string, c: nat): (r: Option<nat>)
    ensures r.Some? ==> c < r.value <= |u| && AtEnd(u, r.value)
    ensures r.Some? ==> forall f | c < f < r.value :: !AtEnd(u, f)
    ensures r.None? ==> forall f | c < f <= |u| :: !AtEnd(u, f)
  {
    if c + 1 < |u| && u[|u| - 1] == '\n' then Some(|u| - 1)
    else if c + 1 <= |u| then Some(|u|)
    else None
  }

  datatype FormAMatch = FormAMatch(entry: string, kind: Kind, path: string)

  /** `/(archive|raw)#([^?]+?)$` at e. */
  function FormATail(u: string, e: nat): Option<(Kind, string)>
  {
    if OccursAt(u, "/archive#", e) then
      match LazyToEnd(u, e + 9)
      case Some(f) => Some((Archive, u[e + 9..f]))
      case None => None
    else if OccursAt(u, "/raw#", e) then
      match LazyToEnd(u, e + 5)
      case Some(f) => Some((Raw, u[e + 5..f]))
      case None => None
    else None
  }

  /** The greedy `([^?]+)` from b: group ends hi, hi - 1, ..., b + 1 are tried in turn. */
  function FormAGroup1(u: string, b: nat, hi: nat): Option<FormAMatch>
    requires hi <= |u|
    decreases hi
  {
    if hi <= b then None
    else match FormATail(u, hi)
      case Some((k, p)) => Some(FormAMatch(u[b..hi], k, p))
      case None => FormAGroup1(u, b, hi - 1)
  }

  function FormAFrom(u: string, p: nat): Option<FormAMatch>
  {
    if OccursAt(u, "/entries/", p) then FormAGroup1(u, p + 9, |u|) else None
  }

  /** `^(?:\.\.)?/entries/([^?]+)/(archive|raw)#([^?]+?)$` with re.match. */
  function FormA(u: string): Option<FormAMatch>
  {
    if !NoChar(u, '?') then None
    else if StartsWith(u, "..") && FormAFrom(u, 2).Some? then FormAFrom(u, 2)
    else FormAFrom(u, 0)
  }

  datatype FormBMatch = FormBMatch(installation: Option<string>, upload: string, kind: Kind, entry: string, path: string)
  datatype FormBTail = FormBTail(upload: string, kind: Kind, entry: string, path: string)

  /** The lazy `([^?]+?)#([^?]+?)$` with group 4 = u[c..f] for f = c + 1, c + 2, ... */
  function FormBGroup4(u: string, c: nat, f: nat): Option<(string, string)>
    requires c < f
    decreases |u| - f
  {
    if f >= |u| then None
    else if u[f] == '#' && LazyToEnd(u, f + 1).Some? then
      Some((u[c..f], u[f + 1..LazyToEnd(u, f + 1).value]))
    else FormBGroup4(u, c, f + 1)
  }

  /** `(archive|raw)/` at m, then groups 4 and 5. */
  function FormBKind(u: string, m: nat): Option<(Kind, string, string)>
  {
    if OccursAt(u, "archive/", m) then
      match FormBGroup4(u, m + 8, m + 9)
      case Some((e, p)) => Some((Archive, e, p))
      case None => None
    else if OccursAt(u, "raw/", m) then
      match FormBGroup4(u, m + 4, m + 5)
      case Some((e, p)) => Some((Raw, e, p))
      case None => None
    else None
  }

  /** The end of the longest run of `[\w=-]` from q. */
  function UploadIdRunEnd(u: string, q: nat): (j: nat)
    requires q <= |u|
    ensures q <= j <= |u|
    ensures forall i | q <= i < j :: IsUploadIdChar(u[i])
    ensures j < |u| ==> !IsUploadIdChar(u[j])
    decreases |u| - q
  {
    if q < |u| && IsUploadIdChar(u[q]) then UploadIdRunEnd(u, q + 1) else q
  }

  /** The greedy `([\w=-]*)/?`: group 2 = u[q..j] for j = hi, hi - 1, ..., q. */
  function FormBGroup2(u: string, q: nat, j: nat): Option<FormBTail>
    requires q <= j <= |u|
    decreases j
  {
    var rest := if j < |u| && u[j] == '/' && FormBKind(u, j + 1).Some? then FormBKind(u, j + 1)
      else FormBKind(u, j);
    match rest
    case Some((k, e, p)) => Some(FormBTail(u[q..j], k, e, p))
    case None => if j == q then None else FormBGroup2(u, q, j - 1)
  }

  /**
   * `/uploads?/` at k and the rest of form b. The optional `s` is greedy; when it is
   * present, the alternative without it would need a `/` where the `s` stands.
   */
  function FormBRest(u: string, k: nat): Option<FormBTail>
  {
    if !OccursAt(u, "/upload", k) then None
    else
      var s := k + 7;
      var p := if s < |u| && u[s] == 's' then s + 1 else s;
      if p < |u| && u[p] == '/' then FormBGroup2(u, p + 1, UploadIdRunEnd(u, p + 1)) else None
  }

  /** The lazy `([^?]+?)`: group 1 = u[..k] for k = lo, lo + 1, ... */
  function FormBGroup1(u: string, k: nat): Option<FormBMatch>
    requires 1 <= k
    decreases |u| - k
  {
    if k >= |u| then None
    else match FormBRest(u, k)
      case Some(t) => Some(FormBMatch(Some(u[..k]), t.upload, t.kind, t.entry, t.path))
      case None => FormBGroup1(u, k + 1)
  }

  /**
   * `^([^?]+?)?/uploads?/([\w=-]*)/?(archive|raw)/([^?]+?)#([^?]+?)$` with re.match: the
   * optional group 1 is tried with every length first, then not participating (None).
   */
  function FormB(u: string): Option<FormBMatch>
  {
    if !NoChar(u, '?') then None
    else match FormBGroup1(u, 1)
      case Some(m) => Some(m)
      case None =>
        match FormBRest(u, 0)
        case Some(t) => Some(FormBMatch(None, t.upload, t.kind, t.entry, t.path))
        case None => None
  }

  // ---------------------------------------------------------------------------
  // parse_path

  datatype ParsedReference = ParsedReference(
    installation: Option<string>, uploadId: Option<string>, entryId: string, kind: Kind, path: string)

  /** What parse_path makes of a form-b match (context.py, after the match succeeds). */
  function FromFormB(b: FormBMatch, uploadId: Option<string>, gen: EntryIdGenerator): (r: Option<ParsedReference>)
    ensures r.Some? ==> r.value.installation != Some("") && r.value.installation != Some("..")
    ensures r.Some? ==> r.value.kind == b.kind && r.value.path == b.path
    ensures r.Some? ==> r.value.uploadId == if b.upload == "" then uploadId else Some(b.upload)
    ensures r.Some? && b.installation != Some("") && b.installation != Some("..") ==> r.value.installation == b.installation
    ensures r.None? <==> b.kind == Archive && !StartsWith(b.entry, "mainfile/") && !NoChar(b.entry, '/')
    ensures r.Some? && !(b.kind == Archive && StartsWith(b.entry, "mainfile/")) ==> r.value.entryId == b.entry
    ensures r.Some? && r.value.kind == Archive && !StartsWith(b.entry, "mainfile/") ==> NoChar(r.value.entryId, '/')
  {
    var installation := if b.installation == Some("") || b.installation == Some("..") then None else b.installation;
    var otherUploadId := if b.upload == "" then uploadId else Some(b.upload);
    if b.kind == Archive && StartsWith(b.entry, "mainfile/") then
      Some(ParsedReference(installation, otherUploadId, gen(otherUploadId, ReplaceAll(b.entry, "mainfile/", "")), b.kind, b.path))
    else if b.kind == Archive && !NoChar(b.entry, '/') then None
    else Some(ParsedReference(installation, otherUploadId, b.entry, b.kind, b.path))
  }

  /** parse_path(url, upload_id): form b first, then form a, else None. */
  function ParsePath(url: string, uploadId: Option<string>, gen: EntryIdGenerator): (r: Option<ParsedReference>)
    ensures FormB(url).None? && FormA(url).None? ==> r.None?
    ensures FormB(url).None? && FormA(url).Some? ==>
      r == Some(ParsedReference(None, uploadId, FormA(url).value.entry, FormA(url).value.kind, FormA(url).value.path))
    ensures FormB(url).Some? ==> r == FromFormB(FormB(url).value, uploadId, gen)
    ensures r.Some? ==> r.value.installation != Some("") && r.value.installation != Some("..")
  {
    match FormB(url)
    case None =>
      (match FormA(url)
       case None => None
       case Some(a) => Some(ParsedReference(None, uploadId, a.entry, a.kind, a.path)))
    case Some(b) => FromFormB(b, uploadId, gen)
  }

  // ---------------------------------------------------------------------------
  // What the two forms make of the references this module writes

  function KindWord(k: Kind): string {
    match k
    case Archive => "archive"
    case Raw => "raw"
  }

  predicate NoKindAt(u: string, i: nat) {
    !OccursAt(u, "archive/", i) && !OccursAt(u, "raw/", i)
  }

  lemma NotOccursAt(u: string, t: string, i: nat, k: nat)
    requires k < |t| && i + k < |u| && u[i + k] != t[k]
    ensures !OccursAt(u, t, i)
  {
  }

  lemma NoKindAtNoMatch(u: string, i: nat)
    requires NoKindAt(u, i)
    ensures FormBKind(u, i).None?
  {
  }

  /** Group 4 ends at the first `#` that leaves a non-empty group 5. */
  lemma {:induction false} FormBGroup4At(u: string, c: nat, f: nat, h: nat)
    requires c < f <= h < |u| && u[h] == '#' && LazyToEnd(u, h + 1).Some?
    requires forall i | f <= i < h :: u[i] != '#'
    ensures FormBGroup4(u, c, f) == Some((u[c..h], u[h + 1..LazyToEnd(u, h + 1).value]))
    decreases h - f
  {
    if f < h {
      FormBGroup4At(u, c, f + 1, h);
    }
  }

  /** The group-5 text a reference needs: non-empty and not ending in a newline. */
  predicate PlainFragment(f: string) {
    f != [] && f[|f| - 1] != '\n' && NoChar(f, '?')
  }

  /** An entry part: non-empty, without `#` and `?`. */
  predicate PlainEntry(e: string) {
    e != [] && NoChar(e, '#') && NoChar(e, '?')
  }

  lemma OccursConcat(a: string, b: string)
    ensures OccursAt(a + b, a, 0) && OccursAt(a + b, b, |a|)
  {
    assert forall k | 0 <= k < |b| :: (a + b)[|a| + k] == b[k];
  }

  lemma OccursChar(u: string, t: string, i: nat, k: nat)
    requires OccursAt(u, t, i) && k < |t|
    ensures u[i + k] == t[k]
  {
  }

  lemma OccursJoin(u: string, a: string, b: string, i: nat)
    requires OccursAt(u, a, i) && OccursAt(u, b, i + |a|)
    ensures OccursAt(u, a + b, i)
  {
    forall k | 0 <= k < |a + b| ensures u[i + k] == (a + b)[k] {
      if k >= |a| {
        OccursChar(u, b, i + |a|, k - |a|);
      } else {
        OccursChar(u, a, i, k);
      }
    }
  }

  lemma OccursSplit(u: string, a: string, b: string, i: nat)
    requires OccursAt(u, a + b, i)
    ensures OccursAt(u, a, i) && OccursAt(u, b, i + |a|)
  {
    forall k | 0 <= k < |a| ensures u[i + k] == a[k] {
      OccursChar(u, a + b, i, k);
    }
    forall k | 0 <= k < |b| ensures u[i + |a| + k] == b[k] {
      OccursChar(u, a + b, i, |a| + k);
    }
  }

  /** An occurrence inside a prefix of u is an occurrence in u. */
  lemma OccursPrefixAt(u: string, v: string, t: string, i: nat)
    requires OccursAt(u, v, 0) && OccursAt(v, t, i)
    ensures OccursAt(u, t, i)
  {
    forall k | 0 <= k < |t| ensures u[i + k] == t[k] {
      OccursChar(v, t, i, k);
      OccursChar(u, v, 0, i + k);
    }
  }

  /** u = v + w: w's occurrence in u sits |v| further on. */
  lemma OccursLift(v: string, w: string, t: string, i: nat)
    requires OccursAt(v, t, i)
    ensures OccursAt(v + w, t, i)
  {
    forall k | 0 <= k < |t| ensures (v + w)[i + k] == t[k] {
      assert v[i + k] == t[k];
    }
  }

  /** `(archive|raw)/` at m, then an entry up to the first `#`, then a fragment to the end. */
  lemma FormBKindAt(u: string, m: nat, k: Kind, e: string, f: string)
    requires KindLayout(u, m, k, e, f)
    requires PlainEntry(e) && PlainFragment(f)
    ensures FormBKind(u, m) == Some((k, e, f))
  {
    var c := m + |KindWord(k)| + 1;
    var h := c + |e|;
    OccursChar(u, "#", h, 0);
    forall i | c + 1 <= i < h ensures u[i] != '#' {
      assert u[c + (i - c)] == e[i - c];
    }
    assert u[|u| - 1] == f[|f| - 1] by { assert u[h + 1 + (|f| - 1)] == f[|f| - 1]; }
    assert LazyToEnd(u, h + 1) == Some(|u|);
    FormBGroup4At(u, c, c + 1, h);
    OccursAtSlice(u, e, c);
    OccursAtSlice(u, f, h + 1);
    assert u[c..h] == e;
    assert u[h + 1..|u|] == f;
    assert FormBGroup4(u, c, c + 1) == Some((e, f));
    if k == Raw {
      assert KindWord(k) + "/" == "raw/";
      OccursChar(u, "raw/", m, 0);
      NotOccursAt(u, "archive/", m, 0);
      assert OccursAt(u, "raw/", m);
      assert c == m + 4;
    } else {
      assert KindWord(k) + "/" == "archive/";
      assert OccursAt(u, "archive/", m);
      assert c == m + 8;
    }
  }

  /** The greedy group 2 skips every candidate end at which neither kind word follows. */
  lemma {:induction false} FormBGroup2Skip(u: string, q: nat, j: nat, j1: nat)
    requires q <= j1 <= j <= |u|
    requires forall i | j1 < i <= j :: NoKindAt(u, i) && (i < |u| && u[i] == '/' ==> NoKindAt(u, i + 1))
    ensures FormBGroup2(u, q, j) == FormBGroup2(u, q, j1)
    decreases j
  {
    if j1 < j {
      NoKindAtNoMatch(u, j);
      if j < |u| && u[j] == '/' {
        NoKindAtNoMatch(u, j + 1);
      }
      FormBGroup2Skip(u, q, j - 1, j1);
    }
  }

  lemma UploadIdRunEndAt(u: string, q: nat, n: nat)
    requires q + n <= |u|
    requires forall i | q <= i < q + n :: IsUploadIdChar(u[i])
    requires q + n < |u| ==> !IsUploadIdChar(u[q + n])
    ensures UploadIdRunEnd(u, q) == q + n
  {
  }

  lemma {:induction false} FormBGroup1Skip(u: string, k: nat, k0: nat)
    requires 1 <= k <= k0 < |u|
    requires forall i | k <= i < k0 :: !OccursAt(u, "/upload", i)
    requires FormBRest(u, k0).Some?
    ensures FormBGroup1(u, k) == Some(FormBMatch(Some(u[..k0]), FormBRest(u, k0).value.upload,
      FormBRest(u, k0).value.kind, FormBRest(u, k0).value.entry, FormBRest(u, k0).value.path))
    decreases k0 - k
  {
    if k < k0 {
      FormBGroup1Skip(u, k + 1, k0);
    }
  }

  lemma NoKindAtByChars(u: string, i: nat)
    requires i + 1 < |u|
    requires (u[i] != 'a' && u[i] != 'r') || (u[i] == 'r' && u[i + 1] != 'a') || (u[i] == 'a' && u[i + 1] != 'r')
    ensures NoKindAt(u, i)
  {
    if u[i] != 'a' {
      NotOccursAt(u, "archive/", i, 0);
    } else {
      NotOccursAt(u, "archive/", i, 1);
    }
    if u[i] != 'r' {
      NotOccursAt(u, "raw/", i, 0);
    } else {
      NotOccursAt(u, "raw/", i, 1);
    }
  }

  /** Neither kind word starts an entry that has no such prefix and is followed by `#`. */
  lemma NoKindAtEntry(u: string, i: nat, e: string)
    requires OccursAt(u, e + "#", i)
    requires !StartsWith(e, "archive/") && !StartsWith(e, "raw/")
    ensures NoKindAt(u, i)
  {
    OccursSplit(u, e, "#", i);
    if |e| < 8 {
      OccursChar(u, "#", i + |e|, 0);
      NotOccursAt(u, "archive/", i, |e|);
    }
    if |e| < 4 {
      OccursChar(u, "#", i + |e|, 0);
      NotOccursAt(u, "raw/", i, |e|);
    }
  }

  predicate UploadIdChars(s: string) {
    forall i | 0 <= i < |s| :: IsUploadIdChar(s[i])
  }

  /** No `/upload` starts inside the installation part before the `/uploads/` that follows it. */
  predicate NoUploadInside(pre: string) {
    forall i | 0 < i < |pre| :: !OccursAt(pre + "/upload", "/upload", i)
  }

  /** `<kind>/<entry>#<fragment>` laid out from m to the end of u. */
  predicate KindLayout(u: string, m: nat, k: Kind, e: string, f: string) {
    var c := m + |KindWord(k)| + 1;
    OccursAt(u, KindWord(k) + "/", m) && OccursAt(u, e, c) && OccursAt(u, "#", c + |e|)
    && OccursAt(u, f, c + |e| + 1) && c + |e| + 1 + |f| == |u|
  }

  /** Where the five pieces of a + b + c + d + e sit. */
  lemma Layout5(a: string, b: string, c: string, d: string, e: string)
    ensures var u := a + b + c + d + e;
      OccursAt(u, b, |a|) && OccursAt(u, c, |a| + |b|) && OccursAt(u, d, |a| + |b| + |c|)
      && OccursAt(u, e, |a| + |b| + |c| + |d|)
  {
    Layout5Second(a, b, c, d, e);
    Layout5Third(a, b, c, d, e);
    OccursConcat(a + b + c, d);
    OccursLift(a + b + c + d, e, d, |a + b + c|);
    OccursConcat(a + b + c + d, e);
  }

  lemma Layout5Second(a: string, b: string, c: string, d: string, e: string)
    ensures OccursAt(a + b + c + d + e, b, |a|)
  {
    OccursConcat(a, b);
    OccursLift(a + b, c, b, |a|);
    OccursLift(a + b + c, d, b, |a|);
    OccursLift(a + b + c + d, e, b, |a|);
  }

  lemma Layout5Third(a: string, b: string, c: string, d: string, e: string)
    ensures OccursAt(a + b + c + d + e, c, |a| + |b|)
  {
    OccursConcat(a + b, c);
    OccursLift(a + b + c, d, c, |a + b|);
    OccursLift(a + b + c + d, e, c, |a + b|);
  }

  lemma KindLayoutOf(pre: string, k: Kind, e: string, f: string)
    ensures KindLayout(pre + KindWord(k) + "/" + e + "#" + f, |pre|, k, e, f)
  {
    var w := KindWord(k) + "/";
    assert pre + KindWord(k) + "/" == pre + w;
    Layout5(pre, w, e, "#", f);
  }

  lemma UploadsAt(u: string, n: nat)
    requires OccursAt(u, "/uploads/", n)
    ensures OccursAt(u, "/upload", n) && u[n + 7] == 's' && u[n + 8] == '/'
  {
    assert "/uploads/" == "/upload" + "s/";
    OccursSplit(u, "/upload", "s/", n);
    OccursChar(u, "s/", n + 7, 0);
    OccursChar(u, "s/", n + 7, 1);
  }

  /** An upload id followed by `/` is exactly the greedy `[\w=-]*` run. */
  lemma UploadRunAt(u: string, q: nat, up: string)
    requires OccursAt(u, up, q) && OccursAt(u, "/", q + |up|) && UploadIdChars(up)
    ensures UploadIdRunEnd(u, q) == q + |up| && u[q..q + |up|] == up && u[q + |up|] == '/'
  {
    forall i | q <= i < q + |up| ensures IsUploadIdChar(u[i]) {
      OccursChar(u, up, q, i - q);
    }
    OccursChar(u, "/", q + |up|, 0);
    UploadIdRunEndAt(u, q, |up|);
    OccursAtSlice(u, up, q);
  }

  /** `/uploads/<upload>/<kind>/<entry>#<fragment>` from n to the end of u. */
  lemma FormBRestUploads(u: string, n: nat, up: string, k: Kind, e: string, f: string)
    requires OccursAt(u, "/uploads/", n) && OccursAt(u, up, n + 9) && OccursAt(u, "/", n + 9 + |up|)
    requires UploadIdChars(up) && KindLayout(u, n + 10 + |up|, k, e, f)
    requires PlainEntry(e) && PlainFragment(f)
    ensures FormBRest(u, n) == Some(FormBTail(up, k, e, f))
  {
    UploadsAt(u, n);
    var q := n + 9;
    var j := q + |up|;
    UploadRunAt(u, q, up);
    FormBKindAt(u, j + 1, k, e, f);
    FormBRestAt(u, n, j, FormBTail(up, k, e, f));
  }

  /** FormBRest at n when `/uploads/`, an upload id run that ends in `/`, and a kind part follow. */
  lemma FormBRestAt(u: string, n: nat, j: nat, t: FormBTail)
    requires OccursAt(u, "/upload", n) && n + 9 <= |u| && u[n + 7] == 's' && u[n + 8] == '/'
    requires UploadIdRunEnd(u, n + 9) == j && j < |u| && u[j] == '/'
    requires FormBKind(u, j + 1) == Some((t.kind, t.entry, t.path)) && t.upload == u[n + 9..j]
    ensures FormBRest(u, n) == Some(t)
  {
    assert FormBGroup2(u, n + 9, j) == Some(t);
  }

  /** With u = pre + "/upload" + ..., no shorter group 1 reaches a `/upload`. */
  lemma NoUploadBefore(u: string, pre: string, i: nat)
    requires OccursAt(u, pre, 0) && OccursAt(u, "/upload", |pre|) && NoUploadInside(pre)
    requires 0 < i < |pre|
    ensures !OccursAt(u, "/upload", i)
  {
    if OccursAt(u, "/upload", i) {
      var v := pre + "/upload";
      forall x | 0 <= x < 7 ensures v[i + x] == "/upload"[x] {
        OccursChar(u, "/upload", i, x);
        if i + x < |pre| {
          OccursChar(u, pre, 0, i + x);
        } else {
          OccursChar(u, "/upload", |pre|, i + x - |pre|);
        }
      }
      assert OccursAt(v, "/upload", i);
    }
  }

  lemma Lift5(v: string, w1: string, w2: string, w3: string, w4: string, w5: string, t: string, i: nat)
    requires OccursAt(v, t, i)
    ensures OccursAt(v + w1 + w2 + w3 + w4 + w5, t, i)
  {
    OccursLift(v, w1, t, i);
    OccursLift(v + w1, w2, t, i);
    OccursLift(v + w1 + w2, w3, t, i);
    OccursLift(v + w1 + w2 + w3, w4, t, i);
    OccursLift(v + w1 + w2 + w3 + w4, w5, t, i);
  }

  /** Where the four pieces of a + b + c + d sit. */
  lemma Layout4(a: string, b: string, c: string, d: string)
    ensures var u := a + b + c + d;
      OccursAt(u, a, 0) && OccursAt(u, b, |a|) && OccursAt(u, c, |a| + |b|) && OccursAt(u, d, |a| + |b| + |c|)
  {
    OccursConcat(a, b);
    OccursLift(a + b, c, a, 0);
    OccursLift(a + b + c, d, a, 0);
    OccursLift(a + b, c, b, |a|);
    OccursLift(a + b + c, d, b, |a|);
    OccursConcat(a + b, c);
    OccursLift(a + b + c, d, c, |a + b|);
    OccursConcat(a + b + c, d);
  }

  lemma UploadIdNoQuery(up: string)
    requires UploadIdChars(up)
    ensures NoChar(up, '?')
  {
  }

  /** Where the pieces of `<installation>/uploads/<upload>/<kind>/<entry>#<fragment>` sit. */
  lemma UploadsLayout(pre: string, up: string, k: Kind, e: string, f: string)
    ensures var u := pre + "/uploads/" + up + "/" + KindWord(k) + "/" + e + "#" + f;
      && OccursAt(u, pre, 0) && OccursAt(u, "/uploads/", |pre|) && OccursAt(u, up, |pre| + 9)
      && OccursAt(u, "/", |pre| + 9 + |up|) && KindLayout(u, |pre| + 10 + |up|, k, e, f)
  {
    var a := pre + "/uploads/" + up + "/";
    KindLayoutOf(a, k, e, f);
    Layout4(pre, "/uploads/", up, "/");
    Lift5(a, KindWord(k), "/", e, "#", f, pre, 0);
    Lift5(a, KindWord(k), "/", e, "#", f, "/uploads/", |pre|);
    Lift5(a, KindWord(k), "/", e, "#", f, up, |pre| + 9);
    Lift5(a, KindWord(k), "/", e, "#", f, "/", |pre| + 9 + |up|);
  }

  /**
   * An absolute reference `<installation>/uploads/<upload>/<kind>/<entry>#<fragment>` is a
   * form-b match with every group as written, provided no `/upload` starts inside the
   * installation part.
   */
  lemma FormBUploadsShape(pre: string, up: string, k: Kind, e: string, f: string)
    requires pre != [] && NoChar(pre, '?') && NoUploadInside(pre)
    requires UploadIdChars(up) && PlainEntry(e) && PlainFragment(f)
    ensures FormB(pre + "/uploads/" + up + "/" + KindWord(k) + "/" + e + "#" + f) == Some(FormBMatch(Some(pre), up, k, e, f))
  {
    var u := pre + "/uploads/" + up + "/" + KindWord(k) + "/" + e + "#" + f;
    UploadsLayout(pre, up, k, e, f);
    UploadIdNoQuery(up);
    assert NoChar(u, '?');
    FormBUploadsAt(u, pre, up, k, e, f);
  }

  /** The form-b match of a string laid out as an absolute upload reference. */
  lemma FormBUploadsAt(u: string, pre: string, up: string, k: Kind, e: string, f: string)
    requires pre != [] && NoUploadInside(pre) && NoChar(u, '?')
    requires UploadIdChars(up) && PlainEntry(e) && PlainFragment(f)
    requires OccursAt(u, pre, 0) && OccursAt(u, "/uploads/", |pre|) && OccursAt(u, up, |pre| + 9)
    requires OccursAt(u, "/", |pre| + 9 + |up|) && KindLayout(u, |pre| + 10 + |up|, k, e, f)
    ensures FormB(u) == Some(FormBMatch(Some(pre), up, k, e, f))
  {
    FormBRestUploads(u, |pre|, up, k, e, f);
    UploadsAt(u, |pre|);
    NoUploadBelow(u, pre);
    FormBGroup1Skip(u, 1, |pre|);
    OccursAtSlice(u, pre, 0);
    assert FormBGroup1(u, 1) == Some(FormBMatch(Some(pre), up, k, e, f));
  }

  lemma NoUploadBelow(u: string, pre: string)
    requires OccursAt(u, pre, 0) && OccursAt(u, "/upload", |pre|) && NoUploadInside(pre)
    ensures forall i | 1 <= i < |pre| :: !OccursAt(u, "/upload", i)
  {
    forall i | 1 <= i < |pre| ensures !OccursAt(u, "/upload", i) {
      NoUploadBefore(u, pre, i);
    }
  }

  lemma RelativeUploadLayout(e: string, f: string)
    requires NoChar(e, '?') && NoChar(f, '?')
    ensures var u := "../upload/archive/" + e + "#" + f;
      (forall i | 0 <= i < 18 :: u[i] == "../upload/archive/"[i])
      && KindLayout(u, 10, Archive, e, f) && OccursAt(u, e + "#", 18)
      && NoChar(u, '?') && !OccursAt(u, "/upload", 1) && u[..2] == ".."
  {
    var v := "../upload/";
    var u := v + KindWord(Archive) + "/" + e + "#" + f;
    assert v + KindWord(Archive) + "/" == "../upload/archive/";
    KindLayoutOf(v, Archive, e, f);
    OccursJoin(u, e, "#", 18);
    NotOccursAt(u, "/upload", 1, 0);
  }

  lemma RelativeUploadRest(u: string, e: string, f: string)
    requires 18 < |u| && forall i | 0 <= i < 18 :: u[i] == "../upload/archive/"[i]
    requires KindLayout(u, 10, Archive, e, f) && NoKindAt(u, 18)
    requires PlainEntry(e) && PlainFragment(f)
    ensures FormBRest(u, 2) == Some(FormBTail("", Archive, e, f))
  {
    assert OccursAt(u, "/upload", 2);
    assert u[9] == '/' && u[9] != 's';
    UploadIdRunEndAt(u, 10, 7);
    forall i | 10 < i <= 17 ensures NoKindAt(u, i) && (i < |u| && u[i] == '/' ==> NoKindAt(u, i + 1)) {
      NoKindAtByChars(u, i);
    }
    FormBGroup2Skip(u, 10, 17, 10);
    FormBKindAt(u, 10, Archive, e, f);
    assert u[10] != '/';
    assert FormBKind(u, 10) == Some((Archive, e, f));
    assert u[10..10] == [];
    assert FormBGroup2(u, 10, 10) == Some(FormBTail("", Archive, e, f));
  }

  /**
   * The same-upload reference `../upload/archive/<entry>#<fragment>`: `/upload` without `s`,
   * and group 2 is empty only after the greedy `[\w=-]*` has given back all of `archive`.
   */
  lemma FormBUploadRelativeShape(e: string, f: string)
    requires PlainEntry(e) && PlainFragment(f) && !StartsWith(e, "archive/") && !StartsWith(e, "raw/")
    ensures FormB("../upload/archive/" + e + "#" + f) == Some(FormBMatch(Some(".."), "", Archive, e, f))
  {
    var u := "../upload/archive/" + e + "#" + f;
    assert FormBRest(u, 2) == Some(FormBTail("", Archive, e, f)) && !OccursAt(u, "/upload", 1)
      && NoChar(u, '?') && u[..2] == ".." by {
      RelativeUploadLayout(e, f);
      NoKindAtEntry(u, 18, e);
      RelativeUploadRest(u, e, f);
    }
    FormBGroup1Skip(u, 1, 2);
  }

  /** An entry id as the references this module writes contain it: no `/`, `#` or `?`. */
  predicate PlainId(e: string) {
    PlainEntry(e) && NoChar(e, '/')
  }

  lemma PlainIdNoKind(e: string)
    requires PlainId(e)
    ensures !StartsWith(e, "archive/") && !StartsWith(e, "raw/") && !StartsWith(e, "mainfile/")
  {
    if |e| >= 9 {
      assert e[3] != '/' && e[7] != '/' && e[8] != '/';
    } else if |e| >= 8 {
      assert e[3] != '/' && e[7] != '/';
    } else if |e| >= 4 {
      assert e[3] != '/';
    }
  }

  /** parse_path of an absolute reference gives back its installation, upload, entry and path. */
  lemma ParseAbsolute(inst: string, up: string, e: string, f: string, uploadId: Option<string>, gen: EntryIdGenerator)
    requires inst != [] && inst != ".." && NoChar(inst, '?') && NoUploadInside(inst)
    requires up != [] && UploadIdChars(up) && PlainId(e) && PlainFragment(f)
    ensures ParsePath(inst + "/uploads/" + up + "/archive/" + e + "#" + f, uploadId, gen)
      == Some(ParsedReference(Some(inst), Some(up), e, Archive, f))
  {
    var a := inst + "/uploads/" + up;
    assert a + "/archive/" == a + "/" + KindWord(Archive) + "/";
    FormBUploadsShape(inst, up, Archive, e, f);
    PlainIdNoKind(e);
  }

  lemma NoUploadInsideDots()
    ensures NoUploadInside("..")
  {
    NotOccursAt("../upload", "/upload", 1, 0);
  }

  /** parse_path of `../uploads/<upload>/archive/<entry>#<path>`: a local reference into another upload. */
  lemma ParseRelativeUploads(up: string, e: string, f: string, uploadId: Option<string>, gen: EntryIdGenerator)
    requires up != [] && UploadIdChars(up) && PlainId(e) && PlainFragment(f)
    ensures ParsePath("../uploads/" + up + "/archive/" + e + "#" + f, uploadId, gen)
      == Some(ParsedReference(None, Some(up), e, Archive, f))
  {
    var a := ".." + "/uploads/" + up;
    assert "../uploads/" + up == a;
    assert a + "/archive/" == a + "/" + KindWord(Archive) + "/";
    NoUploadInsideDots();
    FormBUploadsShape("..", up, Archive, e, f);
    PlainIdNoKind(e);
  }

  /** parse_path of `../upload/archive/<entry>#<path>`: a reference within the current upload. */
  lemma ParseRelativeUpload(e: string, f: string, uploadId: Option<string>, gen: EntryIdGenerator)
    requires PlainId(e) && PlainFragment(f)
    ensures ParsePath("../upload/archive/" + e + "#" + f, uploadId, gen)
      == Some(ParsedReference(None, uploadId, e, Archive, f))
  {
    PlainIdNoKind(e);
    FormBUploadRelativeShape(e, f);
  }

  // ---------------------------------------------------------------------------
  // Fragments and the installation URL

  /** _normalize_fragment: a non-empty fragment is made to start with `/`, nothing else changes. */
  function NormalizeFragment(f: string): (r: string)
    ensures r == [] <==> f == []
    ensures r != [] ==> r[0] == '/'
    ensures r == f || r == "/" + f
    ensures StartsWith(f, "/") ==> r == f
  {
    if f != [] && !StartsWith(f, "/") then "/" + f else f
  }

  lemma NormalizeFragmentIdempotent(f: string)
    ensures NormalizeFragment(NormalizeFragment(f)) == NormalizeFragment(f)
  {
  }

  /**
   * What Context.__init__ stores as installation_url: the configured API URL when none is
   * given, else the given URL without one trailing `/`; then `/v1` or `/api/v1` is appended
   * unless it already ends with `/api/v1`.
   */
  function NormalizeInstallationUrl(given: Option<string>, configured: string): (r: string)
    ensures EndsWith(r, "/api/v1")
    ensures given.Some? && EndsWith(given.value, "/api/v1") ==> r == given.value
    ensures given.Some? && EndsWith(given.value, "/api/v1/") ==> r == given.value[..|given.value| - 1]
    ensures given.None? && EndsWith(configured, "/api/v1") ==> r == configured
    ensures var s := StripTrailingSlash(given, configured); r == s || r == s + "/v1" || r == s + "/api/v1"
  {
    var s := StripTrailingSlash(given, configured);
    if given.Some? && EndsWith(given.value, "/api/v1/") then
      ApiV1Slash(given.value, s);
      s
    else if EndsWith(s, "/api/v1") then s
    else if EndsWith(s, "/api") then
      ApiSuffix(s);
      s + "/v1"
    else
      EndsWithConcat(s, "/api/v1");
      s + "/api/v1"
  }

  lemma ApiSuffix(s: string)
    requires EndsWith(s, "/api")
    ensures EndsWith(s + "/v1", "/api/v1")
  {
    assert (s + "/v1")[|s + "/v1"| - 7..] == s[|s| - 4..] + "/v1";
  }

  lemma ApiV1Slash(u: string, s: string)
    requires EndsWith(u, "/api/v1/") && s + "/" == u
    ensures s == u[..|u| - 1] && EndsWith(s, "/api/v1")
  {
    assert s == (s + "/")[..|s|];
    assert u[|u| - 8..] == s[|s| - 7..] + "/";
    assert s[|s| - 7..] == u[|u| - 8..][..7];
  }

  /** The first step of Context.__init__: at most one trailing `/` of a given URL is removed. */
  function StripTrailingSlash(given: Option<string>, configured: string): (s: string)
    ensures given.None? ==> s == configured
    ensures given.Some? ==> s == given.value || s + "/" == given.value
    ensures given.Some? && !EndsWith(given.value, "/") ==> s == given.value
    ensures given.Some? && EndsWith(given.value, "/") ==> s + "/" == given.value
    ensures given.Some? && EndsWith(given.value, "/api/v1") ==> s == given.value
  {
    match given
    case None => configured
    case Some(u) =>
      assert EndsWith(u, "/api/v1") ==> u[|u| - 1] == '1' by {
        if EndsWith(u, "/api/v1") { assert u[|u| - 7..][6] == '1'; }
      }
      assert EndsWith(u, "/") ==> u[|u| - 1] == '/' by {
        if EndsWith(u, "/") { assert u[|u| - 1..][0] == '/'; }
      }
      if EndsWith(u, "/") then
        assert u[..|u| - 1] + "/" == u;
        u[..|u| - 1]
      else u
  }

  /** A normalised installation URL is a fixed point: normalising it again changes nothing. */
  lemma NormalizeInstallationUrlIdempotent(given: Option<string>, configured: string, configured2: string)
    ensures var r := NormalizeInstallationUrl(given, configured);
      NormalizeInstallationUrl(Some(r), configured2) == r
  {
    var r := NormalizeInstallationUrl(given, configured);
    assert r[|r| - 1] == '1' by { assert r[|r| - 7..][6] == '1'; }
  }

  // ---------------------------------------------------------------------------
  // Archives, contexts and the Context object

  /** The ids an archive's metadata carries. */
  datatype Metadata = Metadata(uploadId: Option<string>, entryId: Option<string>)

  /** The context an archive root is attached to: its identity and its installation_url attribute, if any. */
  datatype ContextRef = ContextRef(id: nat, installationUrl: Option<string>)

  /**
   * The root section of an archive, compared by identity as Python compares section objects:
   * whether it is an EntryArchive, its metadata, and its m_context.
   */
  datatype Root = Root(identity: nat, isEntryArchive: bool, metadata: Option<Metadata>, context: Option<ContextRef>)

  /** _get_ids: the metadata's upload and entry id of an entry archive with metadata, else (None, None). */
  function GetIds(root: Root): (r: (Option<string>, Option<string>))
    ensures !root.isEntryArchive || root.metadata.None? ==> r == (None, None)
    ensures root.isEntryArchive && root.metadata.Some? ==> r == (root.metadata.value.uploadId, root.metadata.value.entryId)
  {
    if root.isEntryArchive && root.metadata.Some? then (root.metadata.value.uploadId, root.metadata.value.entryId)
    else (None, None)
  }

  /** create_reference returns a string, None, or fails an assertion. */
  datatype RefOutcome = Ref(url: string) | NoRef | AssertionFailure(message: string)

  datatype RefError =
    | InvalidReference(url: string)   // MetainfoReferenceError
    | InvalidUrl                      // ValueError raised by urlsplit
    | MissingMetadata                 // AttributeError on a root without metadata
    | AssertionFailed(message: string)

  /** An archive loader of a concrete context: (entry id or path, upload id, installation URL) to a root. */
  type Loader = (string, Option<string>, string) -> Root

  /**
   * The first `/archive/mainfile/` in a path urlsplit produced, and the rest of the path after
   * it: re.search of `/archive/mainfile/(.*)$`. Such a path holds no newline, so `.*` reaches
   * the end and `$` matches there.
   */
  function MainfileSearch(path: string): (r: Option<(nat, string)>)
    requires Urls.NoUnsafe(path)
    ensures r.None? <==> forall i | 0 <= i :: !OccursAt(path, "/archive/mainfile/", i)
    ensures r.Some? ==> OccursAt(path, "/archive/mainfile/", r.value.0)
    ensures r.Some? ==> forall i | 0 <= i < r.value.0 :: !OccursAt(path, "/archive/mainfile/", i)
    ensures r.Some? ==> r.value.1 == path[r.value.0 + 18..]
  {
    match FindFrom(path, "/archive/mainfile/", 0)
    case None => None
    case Some(i) => Some((i, path[i + 18..]))
  }

  /** The metainfo context of this installation: its installation URL and the two archive caches. */
  class Context {
    const id: nat
    /** The upload_id property: None for a plain Context, the upload's id in a server context. */
    const uploadId: Option<string>
    var installationUrl: string
    var archives: map<string, Root>
    var urls: map<nat, string>

    /** Every cached archive is found again under the URL the reverse map gives for it. */
    ghost predicate Coherent()
      reads this
    {
      (forall u | u in archives :: archives[u].identity in urls)
      && (forall r | r in urls :: urls[r] in archives && archives[urls[r]].identity == r)
    }

    constructor (installationUrl: Option<string>, configuredApiUrl: string, uploadId: Option<string>, id: nat)
      ensures this.installationUrl == NormalizeInstallationUrl(installationUrl, configuredApiUrl)
      ensures EndsWith(this.installationUrl, "/api/v1")
      ensures this.uploadId == uploadId && this.id == id
      ensures archives == map[] && urls == map[]
      ensures Coherent()
    {
      this.installationUrl := NormalizeInstallationUrl(installationUrl, configuredApiUrl);
      this.uploadId := uploadId;
      this.id := id;
      archives := map[];
      urls := map[];
    }

    /** The target's context's installation_url, this context's when it has none. */
    function TargetInstallation(target: Root): string
      reads this
    {
      if target.context.Some? && target.context.value.installationUrl.Some? then target.context.value.installationUrl.value
      else installationUrl
    }

    /**
     * create_reference: the reference string from the archive `source` to the section at
     * `fragment` in the archive `target`.
     */
    function CreateReference(source: Root, target: Root, fragment: string): (r: RefOutcome)
      reads this
      ensures r.Ref? ==> EndsWith(r.url, "#" + fragment)
      ensures source.identity == target.identity ==> r == Ref("#" + fragment)
      ensures source.identity != target.identity && target.identity in urls ==> r == Ref(urls[target.identity] + "#" + fragment)
      ensures r.NoRef? <==> source.identity != target.identity && target.identity !in urls && target.metadata.None?
      ensures r.AssertionFailure? ==> GetIds(target).0.None? || GetIds(target).1.None? || source.context.None? || source.context.value.id != id
    {
      var local := "#" + fragment;
      if source.identity == target.identity then Ref(local)
      else if target.identity in urls then
        assert urls[target.identity] + local == urls[target.identity] + "#" + fragment;
        Ref(urls[target.identity] + local)
      else if target.metadata.None? then NoRef
      else
        var (uploadId, entryId) := GetIds(target);
        if entryId.None? then AssertionFailure("Only archives with entry_id can be referenced")
        else if uploadId.None? then AssertionFailure("Only archives with upload_id can be referenced")
        else if source.context.None? || source.context.value.id != id then
          AssertionFailure("Can only create references from archives with this context")
        else
          var u := uploadId.value;
          var e := entryId.value;
          var installation := TargetInstallation(target);
          if installation != installationUrl then
            Ref(installation + "/uploads/" + u + "/archive/" + e + local)
          else
            var (sourceUploadId, sourceEntryId) := GetIds(source);
            if entryId == sourceEntryId then Ref(local)
            else if uploadId == sourceUploadId then Ref("../upload/archive/" + e + local)
            else Ref("../uploads/" + u + "/archive/" + e + local)
    }

    /**
     * normalize_reference: the fragment is normalised, and a path ending in
     * `/archive/mainfile/<mainfile>` is rewritten to `/archive/<entry id>` with the entry id
     * generated from this context's upload id (or else the source's) and the mainfile.
     */
    function NormalizeReference(source: Root, url: string, gen: EntryIdGenerator): (r: Result<string, RefError>)
      reads this
      ensures Urls.UrlSplit(url).Failure? <==> r == Failure(InvalidUrl)
      ensures r.Failure? && r.error != InvalidUrl ==>
        Urls.UrlSplit(url).Success? && MainfileSearch(Urls.UrlSplit(url).value.path).Some?
      ensures r.Success? && MainfileSearch(Urls.UrlSplit(url).value.path).None? ==>
        var parts := Urls.UrlSplit(url).value;
        r.value == Urls.UrlUnsplit(parts.(fragment := NormalizeFragment(parts.fragment)))
    {
      match Urls.UrlSplit(url)
      case Failure(_) => Failure(InvalidUrl)
      case Success(parts) =>
        var fragment := NormalizeFragment(parts.fragment);
        match MainfileSearch(parts.path)
        case None => Success(Urls.UrlUnsplit(parts.(fragment := fragment)))
        case Some((_, mainfile)) =>
          if uploadId.None? && source.metadata.None? then Failure(MissingMetadata)
          else
            var upload := if uploadId.Some? then uploadId else source.metadata.value.uploadId;
            if upload.None? then Failure(AssertionFailed("Only archives with upload_id can be referenced"))
            else
              var entryId := gen(upload, mainfile);
              var path := ReplaceAll(parts.path, "/archive/mainfile/" + mainfile, "/archive/" + entryId);
              Success(Urls.UrlUnsplit(parts.(path := path, fragment := fragment)))
    }

    /**
     * _parse_url: parse_path of the URL with the placeholder fragment `#/placeholder`; a local
     * reference resolves against this installation.
     */
    function ParseUrl(url: string, gen: EntryIdGenerator): (r: Result<(string, Option<string>, Kind, string), RefError>)
      reads this
      ensures ParsePath(url + "#/placeholder", uploadId, gen).None? <==> r == Failure(InvalidReference(url))
      ensures r.Success? ==> var p := ParsePath(url + "#/placeholder", uploadId, gen).value;
        r.value == (p.installation.GetOr(installationUrl), p.uploadId, p.kind, p.entryId)
    {
      match ParsePath(url + "#/placeholder", uploadId, gen)
      case None => Failure(InvalidReference(url))
      case Some(p) =>
        var installation := if p.installation.None? then installationUrl else p.installation.value;
        Success((installation, p.uploadId, p.kind, p.entryId))
    }

    /** load_url: an archive reference goes to the archive loader, a raw reference to the raw-file loader. */
    function LoadUrl(url: string, gen: EntryIdGenerator, loadArchive: Loader, loadRawFile: Loader): (r: Result<Root, RefError>)
      reads this
      ensures ParseUrl(url, gen).Failure? ==> r == Failure(ParseUrl(url, gen).error)
      ensures ParseUrl(url, gen).Success? ==> var (installation, upload, kind, idOrPath) := ParseUrl(url, gen).value;
        r == Success(if kind == Archive then loadArchive(idOrPath, upload, installation) else loadRawFile(idOrPath, upload, installation))
    {
      var (installation, upload, kind, idOrPath) :- ParseUrl(url, gen);
      match kind
      case Archive => Success(loadArchive(idOrPath, upload, installation))
      case Raw => Success(loadRawFile(idOrPath, upload, installation))
    }

    /** cache_archive: both maps are updated, nothing else. */
    method CacheArchive(url: string, archive: Root)
      modifies this
      ensures archives == old(archives)[url := archive]
      ensures urls == old(urls)[archive.identity := url]
      ensures installationUrl == old(installationUrl)
    {
      archives := archives[url := archive];
      urls := urls[archive.identity := url];
    }

    /**
     * resolve_archive_url: a cached URL returns its archive without loading; otherwise the
     * loaded archive is cached under the URL in both directions. `loaded` tells whether a
     * loader ran.
     */
    method ResolveArchiveUrl(url: string, gen: EntryIdGenerator, loadArchive: Loader, loadRawFile: Loader)
      returns (r: Result<Root, RefError>, loaded: bool)
      modifies this
      ensures loaded <==> url !in old(archives)
      ensures !loaded ==> r == Success(old(archives)[url]) && archives == old(archives) && urls == old(urls)
      ensures loaded ==> r == old(LoadUrl(url, gen, loadArchive, loadRawFile))
      ensures loaded && r.Failure? ==> archives == old(archives) && urls == old(urls)
      ensures r.Success? ==> url in archives && archives[url] == r.value
      ensures r.Success? && (loaded || old(Coherent())) ==> r.value.identity in urls
      ensures loaded && r.Success? ==> urls[r.value.identity] == url
      ensures loaded && r.Success? ==> archives == old(archives)[url := r.value] && urls == old(urls)[r.value.identity := url]
      ensures installationUrl == old(installationUrl)
      ensures old(Coherent()) ==> Coherent()
    {
      loaded := url !in archives;
      if loaded {
        var archive := LoadUrl(url, gen, loadArchive, loadRawFile);
        if archive.Failure? {
          return archive, loaded;
        }
        CacheArchive(url, archive.value);
      }
      r := Success(archives[url]);
    }
  }

  /**
   * Every reference create_reference writes to another archive, when the ids and the fragment
   * are plain, is parsed by parse_path (with the source's upload id as the current one) into
   * exactly the target's installation, upload id, entry id and fragment; the only other
   * outcome is `#fragment`, for a target with the source's entry id.
   */
  lemma CreateReferenceRoundTrip(ctx: Context, source: Root, target: Root, fragment: string, gen: EntryIdGenerator)
    requires source.identity != target.identity && target.identity !in ctx.urls
    requires ctx.CreateReference(source, target, fragment).Ref?
    requires PlainFragment(fragment)
    requires var (u, e) := GetIds(target); u.Some? && u.value != [] && UploadIdChars(u.value) && e.Some? && PlainId(e.value)
    requires var inst := ctx.TargetInstallation(target);
      inst != ctx.installationUrl ==> inst != [] && inst != ".." && NoChar(inst, '?') && NoUploadInside(inst)
    ensures var url := ctx.CreateReference(source, target, fragment).url;
      var inst := ctx.TargetInstallation(target);
      (url == "#" + fragment && GetIds(source).1 == GetIds(target).1)
      || ParsePath(url, GetIds(source).0, gen) == Some(ParsedReference(
           if inst == ctx.installationUrl then None else Some(inst), GetIds(target).0, GetIds(target).1.value, Archive, fragment))
  {
    var (u, e) := GetIds(target);
    var inst := ctx.TargetInstallation(target);
    var url := ctx.CreateReference(source, target, fragment).url;
    if inst != ctx.installationUrl {
      assert url == inst + "/uploads/" + u.value + "/archive/" + e.value + ("#" + fragment);
      assert url == inst + "/uploads/" + u.value + "/archive/" + e.value + "#" + fragment;
      ParseAbsolute(inst, u.value, e.value, fragment, GetIds(source).0, gen);
    } else if e != GetIds(source).1 {
      if u == GetIds(source).0 {
        assert url == "../upload/archive/" + e.value + "#" + fragment;
        ParseRelativeUpload(e.value, fragment, GetIds(source).0, gen);
      } else {
        assert url == "../uploads/" + u.value + "/archive/" + e.value + "#" + fragment;
        ParseRelativeUploads(u.value, e.value, fragment, GetIds(source).0, gen);
      }
    }
  }

  /** What urlunsplit writes for a relative path and a (normalised) fragment. */
  function WithFragment(p: string, f: string): string {
    if f == "" then p else p + "#" + f
  }

  /** normalize_reference of a plain relative reference without a mainfile part: only the fragment changes. */
  lemma NormalizeReferencePlain(ctx: Context, source: Root, p: string, f: string, gen: EntryIdGenerator)
    requires Urls.PlainRelative(p) && Urls.NoUnsafe(f)
    requires forall i | 0 <= i :: !OccursAt(p, "/archive/mainfile/", i)
    ensures ctx.NormalizeReference(source, p + "#" + f, gen) == Success(WithFragment(p, NormalizeFragment(f)))
  {
    Urls.SplitPlainRelative(p, f);
    Urls.UnsplitRelative(p, NormalizeFragment(f));
  }

  lemma MainfileSearchAt(pre: string, m: string)
    requires Urls.NoUnsafe(pre + "/archive/mainfile/" + m)
    requires forall i | 0 <= i < |pre| :: !OccursAt(pre + "/archive/mainfile/" + m, "/archive/mainfile/", i)
    ensures MainfileSearch(pre + "/archive/mainfile/" + m) == Some((|pre|, m))
  {
    var am := "/archive/mainfile/";
    var p := pre + am + m;
    OccursConcat(pre, am);
    OccursLift(pre + am, m, am, |pre|);
    assert p[|pre| + 18..] == m;
  }

  /** The mainfile part reaches the end, so replacing it happens exactly once, there. */
  lemma ReplaceMainfile(pre: string, m: string, rep: string)
    requires forall i | 0 <= i < |pre| :: !OccursAt(pre + "/archive/mainfile/" + m, "/archive/mainfile/", i)
    ensures ReplaceAll(pre + "/archive/mainfile/" + m, "/archive/mainfile/" + m, rep) == pre + rep
  {
    var am := "/archive/mainfile/";
    var p := pre + am + m;
    assert p == pre + (am + m);
    forall i: nat | i < |pre| ensures !OccursAt(pre + (am + m), am + m, i) {
      if OccursAt(p, am + m, i) {
        OccursSplit(p, am, m, i);
      }
    }
    ReplaceAllAtEnd(pre, am + m, rep);
  }

  /**
   * normalize_reference of `<pre>/archive/mainfile/<m>#<f>`: the mainfile part becomes the
   * entry id generated from the upload id (this context's, else the source's) and m.
   */
  lemma NormalizeReferenceMainfile(ctx: Context, source: Root, pre: string, m: string, f: string, gen: EntryIdGenerator)
    requires Urls.PlainRelative(pre + "/archive/mainfile/" + m) && Urls.NoUnsafe(f)
    requires forall i | 0 <= i < |pre| :: !OccursAt(pre + "/archive/mainfile/" + m, "/archive/mainfile/", i)
    requires ctx.uploadId.Some? || (source.metadata.Some? && source.metadata.value.uploadId.Some?)
    ensures var upload := if ctx.uploadId.Some? then ctx.uploadId else source.metadata.value.uploadId;
      ctx.NormalizeReference(source, pre + "/archive/mainfile/" + m + "#" + f, gen)
        == Success(WithFragment(pre + "/archive/" + gen(upload, m), NormalizeFragment(f)))
  {
    var p := pre + "/archive/mainfile/" + m;
    var upload := if ctx.uploadId.Some? then ctx.uploadId else source.metadata.value.uploadId;
    var id := gen(upload, m);
    var parts := Urls.SplitUrl("", "", p, "", f);
    Urls.SplitPlainRelative(p, f);
    MainfileSearchAt(pre, m);
    NormalizeReferenceRewrite(ctx, source, p + "#" + f, parts, m, upload, gen);
    ReplaceMainfile(pre, m, "/archive/" + id);
    AppendAssoc(pre, "/archive/", id);
    assert parts.(path := pre + "/archive/" + id, fragment := NormalizeFragment(f))
      == Urls.SplitUrl("", "", pre + "/archive/" + id, "", NormalizeFragment(f));
    Urls.UnsplitRelative(pre + "/archive/" + id, NormalizeFragment(f));
  }

  /** normalize_reference of a URL whose path has a mainfile part: the rewrite with the generated entry id. */
  lemma NormalizeReferenceRewrite(ctx: Context, source: Root, url: string, parts: Urls.SplitUrl, m: string,
                                  upload: Option<string>, gen: EntryIdGenerator)
    requires Urls.UrlSplit(url) == Success(parts)
    requires MainfileSearch(parts.path).Some? && MainfileSearch(parts.path).value.1 == m
    requires ctx.uploadId.Some? || (source.metadata.Some? && source.metadata.value.uploadId.Some?)
    requires upload == if ctx.uploadId.Some? then ctx.uploadId else source.metadata.value.uploadId
    ensures ctx.NormalizeReference(source, url, gen) == Success(Urls.UrlUnsplit(parts.(
      path := ReplaceAll(parts.path, "/archive/mainfile/" + m, "/archive/" + gen(upload, m)),
      fragment := NormalizeFragment(parts.fragment))))
  {
  }

  lemma AppendAssoc(a: string, b: string, c: string)
    ensures a + (b + c) == a + b + c
  {
  }

  /** The create_reference cases of tests/datamodel/test_context.py. */
  lemma CreateReferenceIntraArchive(ctx: Context, source: Root)
    ensures ctx.CreateReference(source, source, "/run/0/system/0") == Ref("#/run/0/system/0")
  {
  }

  lemma CreateReferenceIntraUpload(ctx: Context, source: Root, target: Root)
    requires source == Root(1, true, Some(Metadata(Some("source"), Some("source"))), Some(ContextRef(ctx.id, None)))
    requires target == Root(2, true, Some(Metadata(Some("source"), Some("target"))), None) && 2 !in ctx.urls
    ensures ctx.CreateReference(source, target, "/run/0/system/0") == Ref("../upload/archive/target#/run/0/system/0")
  {
    assert GetIds(target) == (Some("source"), Some("target"));
    assert GetIds(source) == (Some("source"), Some("source"));
    assert ctx.TargetInstallation(target) == ctx.installationUrl;
    IntraUploadUrl("target", "/run/0/system/0");
  }

  lemma IntraUploadUrl(e: string, fragment: string)
    requires e == "target" && fragment == "/run/0/system/0"
    ensures "../upload/archive/" + e + ("#" + fragment) == "../upload/archive/target#/run/0/system/0"
  {
  }

  /** _parse_url of a same-upload archive reference resolves against this installation and upload. */
  lemma ParseUrlRelativeUpload(ctx: Context, e: string, gen: EntryIdGenerator)
    requires PlainId(e)
    ensures ctx.ParseUrl("../upload/archive/" + e, gen) == Success((ctx.installationUrl, ctx.uploadId, Archive, e))
  {
    assert PlainFragment("/placeholder");
    ParseRelativeUpload(e, "/placeholder", ctx.uploadId, gen);
    PlaceholderSplit("../upload/archive/" + e);
  }

  /** The placeholder fragment `#/placeholder` is `#` followed by the path `/placeholder`. */
  lemma PlaceholderSplit(x: string)
    ensures x + "#/placeholder" == x + "#" + "/placeholder"
  {
  }

  /** _parse_url of an archive reference into another upload of this installation. */
  lemma ParseUrlRelativeUploads(ctx: Context, up: string, e: string, gen: EntryIdGenerator)
    requires up != [] && UploadIdChars(up) && PlainId(e)
    ensures ctx.ParseUrl("../uploads/" + up + "/archive/" + e, gen) == Success((ctx.installationUrl, Some(up), Archive, e))
  {
    assert PlainFragment("/placeholder");
    ParseRelativeUploads(up, e, "/placeholder", ctx.uploadId, gen);
    PlaceholderSplit("../uploads/" + up + "/archive/" + e);
  }
}
