/**
 * Python's urllib.parse.urlsplit and urlunsplit, as far as reference normalisation
 * relies on them: leading C0-control/space stripping, removal of tab, CR and LF,
 * scheme detection, the network location after `//`, and the first `#` and `?`.
 */
module Urls {
  import opened Wrappers
  import opened Strings

  datatype SplitUrl = SplitUrl(scheme: string, netloc: string, path: string, query: string, fragment: string)

  datatype UrlError = InvalidIPv6Url

  /** The schemes whose URLs carry a network location (urllib.parse.uses_netloc). */
  const UsesNetloc: seq<string> := [
    "", "ftp", "http", "gopher", "nntp", "telnet", "imap", "wais", "file", "mms", "https",
    "shttp", "snews", "prospero", "rtsp", "rtspu", "rsync", "svn", "svn+ssh", "sftp", "nfs",
    "git", "git+ssh", "ws", "wss"
  ]

  predicate IsSchemeChar(c: char) {
    IsAsciiAlnum(c) || c == '+' || c == '-' || c == '.'
  }

  /** The characters urlsplit strips from the front: C0 controls and space. */
  predicate IsC0OrSpace(c: char) { c <= ' ' }

  function LStripC0(s: string): (r: string)
    ensures r == [] || !IsC0OrSpace(r[0])
    ensures EndsWith(s, r)
    decreases |s|
  {
    if s != [] && IsC0OrSpace(s[0]) then
      var r := LStripC0(s[1..]);
      assert s[|s| - |r|..] == s[1..][|s[1..]| - |r|..];
      r
    else
      assert s[|s| - |s|..] == s;
      s
  }

  predicate IsUnsafeUrlChar(c: char) { c == '\t' || c == '\r' || c == '\n' }

  predicate NoUnsafe(s: string) {
    forall i | 0 <= i < |s| :: !IsUnsafeUrlChar(s[i])
  }

  function RemoveUnsafe(s: string): (r: string)
    ensures NoUnsafe(r)
    ensures NoUnsafe(s) ==> r == s
  {
    if s == [] then []
    else if IsUnsafeUrlChar(s[0]) then RemoveUnsafe(s[1..])
    else [s[0]] + RemoveUnsafe(s[1..])
  }

  /** The index of the first occurrence of c in s, if any (str.find). */
  function Find(s: string, c: char): (r: Option<nat>)
    ensures r.None? <==> NoChar(s, c)
    ensures r.Some? ==> r.value < |s| && s[r.value] == c && NoChar(s[..r.value], c)
  {
    if s == [] then None
    else if s[0] == c then Some(0)
    else match Find(s[1..], c)
      case None => None
      case Some(i) =>
        assert s[..i + 1] == [s[0]] + s[1..][..i];
        Some(i + 1)
  }

  /** The first of '/', '?', '#' at or after index 2, or the end (urllib's _splitnetloc). */
  function NetlocEnd(s: string, i: nat): (r: nat)
    requires i <= |s|
    ensures i <= r <= |s|
    ensures r < |s| ==> s[r] in "/?#"
    ensures forall k | i <= k < r :: s[k] !in "/?#"
    decreases |s| - i
  {
    if i == |s| || s[i] in "/?#" then i else NetlocEnd(s, i + 1)
  }

  /** s.split(c, 1) when c occurs in s, s alone otherwise. */
  function SplitFirst(s: string, c: char): (r: (string, string))
    ensures NoChar(s, c) ==> r == (s, "")
    ensures NoUnsafe(s) ==> NoUnsafe(r.0) && NoUnsafe(r.1)
    ensures !NoChar(s, c) ==> s == r.0 + [c] + r.1 && NoChar(r.0, c)
  {
    match Find(s, c)
    case None => (s, "")
    case Some(i) =>
      assert s == s[..i] + [c] + s[i + 1..];
      (s[..i], s[i + 1..])
  }

  /** The scheme before the first ':' when it is a letter followed by scheme characters. */
  function SplitScheme(url: string): (r: (string, string))
    ensures NoUnsafe(url) ==> NoUnsafe(r.1)
  {
    var colon := Find(url, ':');
    if colon.Some? && colon.value > 0 && IsAsciiLetter(url[0])
      && forall k | 0 <= k < colon.value :: IsSchemeChar(url[k])
    then (Lower(url[..colon.value]), url[colon.value + 1..])
    else ("", url)
  }

  /** The network location after a leading `//`; unbalanced brackets are an invalid IPv6 host. */
  function SplitNetloc(url: string): (r: Result<(string, string), UrlError>)
    ensures NoUnsafe(url) && r.Success? ==> NoUnsafe(r.value.1)
  {
    if StartsWith(url, "//") then
      var netEnd := NetlocEnd(url, 2);
      var netloc := url[2..netEnd];
      if ('[' in netloc && ']' !in netloc) || (']' in netloc && '[' !in netloc) then
        Failure(InvalidIPv6Url)
      else Success((netloc, url[netEnd..]))
    else Success(("", url))
  }

  /** urlsplit: tab, CR and LF never survive into the path or the fragment. */
  function UrlSplit(url0: string): (r: Result<SplitUrl, UrlError>)
    ensures r.Success? ==> NoUnsafe(r.value.path) && NoUnsafe(r.value.fragment)
  {
    var url1 := RemoveUnsafe(LStripC0(url0));
    var (scheme, url2) := SplitScheme(url1);
    match SplitNetloc(url2)
    case Failure(e) => Failure(e)
    case Success((netloc, url3)) =>
      var (url4, fragment) := SplitFirst(url3, '#');
      var (path, query) := SplitFirst(url4, '?');
      Success(SplitUrl(scheme, netloc, path, query, fragment))
  }

  function UrlUnsplit(parts: SplitUrl): string
  {
    var path :=
      if parts.netloc != "" || (parts.scheme != "" && parts.scheme in UsesNetloc && !StartsWith(parts.path, "//")) then
        "//" + parts.netloc + (if parts.path != "" && parts.path[0] != '/' then "/" + parts.path else parts.path)
      else parts.path;
    var withScheme := if parts.scheme != "" then parts.scheme + ":" + path else path;
    var withQuery := if parts.query != "" then withScheme + "?" + parts.query else withScheme;
    if parts.fragment != "" then withQuery + "#" + parts.fragment else withQuery
  }

  /**
   * A relative reference: no scheme, no network location, no query, and nothing urlsplit
   * strips or removes.
   */
  predicate PlainRelative(p: string) {
    NoChar(p, ':') && NoChar(p, '#') && NoChar(p, '?')
    && NoChar(p, '\t') && NoChar(p, '\r') && NoChar(p, '\n')
    && !StartsWith(p, "//") && (p == [] || !IsC0OrSpace(p[0]))
  }


  lemma PlainRelativeWithFragment(p: string, f: string)
    requires PlainRelative(p) && NoUnsafe(f)
    ensures var u := p + "#" + f;
      LStripC0(u) == u && RemoveUnsafe(u) == u && !StartsWith(u, "//")
      && u[|p|] == '#' && forall k | 0 <= k < |p| :: u[k] == p[k]
  {
    var u := p + "#" + f;
    assert u[|p|] == '#';
    assert forall k | 0 <= k < |p| :: u[k] == p[k];
    forall i | 0 <= i < |u| ensures !IsUnsafeUrlChar(u[i]) {
      if i > |p| { assert u[i] == f[i - |p| - 1]; }
    }
  }

  /** A string whose first ':' (if any) comes after a non-scheme character has no scheme. */
  lemma NoSchemeBefore(u: string, n: nat)
    requires n < |u| && !IsSchemeChar(u[n]) && u[n] != ':'
    requires forall k | 0 <= k < n :: u[k] != ':'
    ensures SplitScheme(u) == ("", u)
  {
    var c := Find(u, ':');
    if c.Some? && c.value > n {
      assert !IsSchemeChar(u[n]);
    }
  }

  lemma FindAt(u: string, c: char, n: nat)
    requires n < |u| && u[n] == c
    requires forall k | 0 <= k < n :: u[k] != c
    ensures Find(u, c) == Some(n)
  {
    assert !NoChar(u, c);
  }

  /** A plain relative path with a fragment splits into exactly that path and fragment. */
  lemma SplitPlainRelative(p: string, f: string)
    requires PlainRelative(p) && NoUnsafe(f)
    ensures UrlSplit(p + "#" + f) == Success(SplitUrl("", "", p, "", f))
  {
    var u := p + "#" + f;
    PlainRelativeWithFragment(p, f);
    NoSchemeBefore(u, |p|);
    assert SplitNetloc(u) == Success(("", u));
    FindAt(u, '#', |p|);
    assert u[..|p|] == p;
    assert u[|p| + 1..] == f;
    assert SplitFirst(u, '#') == (p, f);
    assert SplitFirst(p, '?') == (p, "");
  }

  /** Putting back a relative path and fragment writes them out unchanged. */
  lemma UnsplitRelative(p: string, f: string)
    ensures UrlUnsplit(SplitUrl("", "", p, "", f)) == if f == "" then p else p + "#" + f
  {
  }
}
