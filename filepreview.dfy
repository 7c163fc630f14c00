/**
 * The raw-file preview of the GUI (gui/src/components/archive/FilePreview.js):
 * choosing a viewer from the file extension and size, the encoded file URL,
 * the render states with the text-viewer fallback, and the paged loading of
 * the text viewer.
 */
module FilePreview {
  import opened Wrappers
  import opened Strings

  // ---------------------------------------------------------------------------
  // The file extension

  /** The last element of a non-empty sequence: JavaScript's arr.pop() on it. */
  function Last<T>(s: seq<T>): T
    requires |s| > 0
  {
    s[|s| - 1]
  }

  /**
   * The last piece of s.split(c) is the longest suffix of s without c: it ends
   * s, and unless it is all of s, it follows a c. A single piece is s itself.
   */
  lemma {:induction false} SplitLast(s: string, c: char)
    ensures var r := Last(Split(s, c));
      && |r| <= |s| && r == s[|s| - |r|..]
      && (|r| < |s| ==> s[|s| - |r| - 1] == c)
      && (|Split(s, c)| == 1 ==> r == s)
      && (|Split(s, c)| > 1 ==> |r| < |s|)
    decreases |s|
  {
    if s != [] {
      var rest := Split(s[1..], c);
      SplitLast(s[1..], c);
      var r0 := Last(rest);
      SuffixShift(s, r0);
      var sp := Split(s, c);
      if s[0] == c {
        LastSeparated(sp, rest);
      } else {
        LastJoined(sp, rest, s[0]);
        if |rest| == 1 {
          assert [s[0]] + s[1..] == s;
        }
      }
    }
  }

  /** A leading separator adds an empty first piece. */
  lemma LastSeparated(sp: seq<string>, rest: seq<string>)
    requires |rest| >= 1 && sp == [""] + rest
    ensures |sp| > 1 && Last(sp) == Last(rest)
  {
  }

  /** Any other first character joins the first piece. */
  lemma LastJoined(sp: seq<string>, rest: seq<string>, ch: char)
    requires |rest| >= 1 && sp == [[ch] + rest[0]] + rest[1..]
    ensures |sp| == |rest|
    ensures |rest| == 1 ==> Last(sp) == [ch] + Last(rest)
    ensures |rest| > 1 ==> Last(sp) == Last(rest)
  {
  }

  /** A suffix of s[1..] is the suffix of s of the same length. */
  lemma SuffixShift(s: string, r: string)
    requires s != [] && |r| <= |s| - 1 && r == s[1..][|s| - 1 - |r|..]
    ensures r == s[|s| - |r|..]
    ensures |r| < |s| - 1 ==> s[|s| - |r| - 1] == s[1..][|s| - 1 - |r| - 1]
  {
  }

  /**
   * path.split('.').pop().toLowerCase(): the text after the last '.' (all of
   * path when it has none), lower-cased.
   */
  function FileExtension(path: string): (r: string)
    ensures |r| <= |path|
    ensures r == Lower(path[|path| - |r|..])
    ensures NoChar(path[|path| - |r|..], '.')
    ensures |r| < |path| ==> path[|path| - |r| - 1] == '.'
  {
    SplitLast(path, '.');
    Lower(Last(Split(path, '.')))
  }

  /** Only one suffix of s has no c and starts s or follows a c. */
  lemma SuffixUnique(s: string, c: char, k1: nat, k2: nat)
    requires k1 <= |s| && k2 <= |s|
    requires NoChar(s[k1..], c) && (k1 > 0 ==> s[k1 - 1] == c)
    requires NoChar(s[k2..], c) && (k2 > 0 ==> s[k2 - 1] == c)
    ensures k1 == k2
  {
  }

  /** The extension after a final '.' is the part behind it, and a path without '.' is its own extension. */
  lemma ExtensionOf(pre: string, ext: string)
    requires NoChar(ext, '.')
    ensures FileExtension(pre + "." + ext) == Lower(ext)
    ensures NoChar(pre, '.') ==> FileExtension(pre) == Lower(pre)
  {
    var p := pre + "." + ext;
    var r := FileExtension(p);
    assert p[|p| - |ext|..] == ext;
    assert p[|p| - |ext| - 1] == '.';
    SuffixUnique(p, '.', |p| - |r|, |p| - |ext|);
    if NoChar(pre, '.') {
      var q := FileExtension(pre);
      assert pre[0..] == pre;
      SuffixUnique(pre, '.', |pre| - |q|, 0);
    }
  }

  // ---------------------------------------------------------------------------
  // Viewers and the viewer choice

  /**
   * A viewer definition: its name, the extensions it lists, its optional
   * maxSizePreview, its maxSizeAutoPreview, and whether it needs a signed url
   * or the loaded data.
   */
  datatype Viewer = Viewer(
    name: string,
    fileExtensions: seq<string>,
    maxSizePreview: Option<nat>,
    maxSizeAutoPreview: nat,
    requiresUrlWithAuth: bool,
    requiresLoadedData: bool)

  const ViewerText := Viewer("text", ["txt", "yaml", "yml"], Some(10_000_000_000), 10_000_000, false, false)
  const ViewerImg := Viewer("image", ["png", "jpg", "jpeg", "gif", "bmp", "svg"], None, 10_000_000, true, false)
  const ViewerJSON := Viewer("json", ["json"], None, 10_000_000, false, true)
  const ViewerPDF := Viewer("pdf", ["pdf"], None, 10_000_000, true, false)

  /** The viewers in the order they are tried. */
  const Viewers := [ViewerText, ViewerImg, ViewerJSON, ViewerPDF]

  /** `viewer.maxSizePreview || 50e6`: an absent or zero limit means 50e6. */
  function PreviewLimit(v: Viewer): nat {
    if v.maxSizePreview.Some? && v.maxSizePreview.value != 0 then v.maxSizePreview.value else 50_000_000
  }

  /** The index of the first viewer that lists ext, if any. */
  function FirstListing(viewers: seq<Viewer>, ext: string): (r: Option<nat>)
    ensures r.Some? ==> r.value < |viewers| && ext in viewers[r.value].fileExtensions
    ensures r.Some? ==> forall j | 0 <= j < r.value :: ext !in viewers[j].fileExtensions
    ensures r.None? ==> forall j | 0 <= j < |viewers| :: ext !in viewers[j].fileExtensions
    decreases |viewers|
  {
    if viewers == [] then None
    else if ext in viewers[0].fileExtensions then Some(0)
    else
      var k := FirstListing(viewers[1..], ext);
      if k.Some? then Some(k.value + 1) else None
  }

  /**
   * The viewer loop: starting from the text viewer, take the first viewer
   * listing the extension, provided the size is below the preview limit of
   * the viewer selected so far (which is always the text viewer, since the
   * loop stops at the first change); autoPreview is then size <
   * maxSizeAutoPreview. Otherwise the text viewer without autoPreview.
   */
  method SelectViewer(ext: string, size: int) returns (selected: Viewer, autoPreview: bool)
    ensures var k := FirstListing(Viewers, ext);
      if k.Some? && size < PreviewLimit(ViewerText) then
        selected == Viewers[k.value] && autoPreview == (size < selected.maxSizeAutoPreview)
      else
        selected == ViewerText && !autoPreview
  {
    autoPreview := false;
    selected := ViewerText;
    var i := 0;
    while i < |Viewers|
      invariant 0 <= i <= |Viewers|
      invariant selected == ViewerText && !autoPreview
      invariant forall j | 0 <= j < i :: ext !in Viewers[j].fileExtensions || size >= PreviewLimit(selected)
    {
      var viewer := Viewers[i];
      if ext in viewer.fileExtensions {
        if size < PreviewLimit(selected) {
          selected := viewer;
          autoPreview := size < viewer.maxSizeAutoPreview;
          FirstListingAt(Viewers, ext, i);
          return;
        }
      }
      i := i + 1;
    }
    if FirstListing(Viewers, ext).Some? {
      assert size >= PreviewLimit(ViewerText);
    }
  }

  /** A listing viewer with no listing viewer before it is the first listing. */
  lemma {:induction false} FirstListingAt(viewers: seq<Viewer>, ext: string, i: nat)
    requires i < |viewers| && ext in viewers[i].fileExtensions
    requires forall j | 0 <= j < i :: ext !in viewers[j].fileExtensions
    ensures FirstListing(viewers, ext) == Some(i)
    decreases i
  {
    if i > 0 {
      FirstListingAt(viewers[1..], ext, i - 1);
    }
  }

  /** No extension is listed by two viewers, so the choice is the one viewer that lists it. */
  lemma ListingsDisjoint(ext: string, k: nat)
    requires k < |Viewers| && ext in Viewers[k].fileExtensions
    ensures FirstListing(Viewers, ext) == Some(k)
  {
  }

  // ---------------------------------------------------------------------------
  // encodeURIComponent and the encoded path

  /** The characters encodeURIComponent leaves alone. */
  predicate Unreserved(c: char) {
    IsAsciiAlnum(c) || c in "-_.!~*'()"
  }

  predicate IsUpperHex(c: char) {
    IsDigit(c) || 'A' <= c <= 'F'
  }

  function HexDigit(d: nat): (c: char)
    requires d < 16
    ensures IsUpperHex(c)
  {
    if d < 10 then ('0' as int + d) as char else ('A' as int + d - 10) as char
  }

  /** The UTF-8 encoding of a Unicode scalar value. */
  function Utf8(n: nat): (r: seq<nat>)
    requires n < 0x11_0000
    ensures 1 <= |r| <= 4
    ensures forall k | 0 <= k < |r| :: r[k] < 256
    ensures n < 0x80 ==> r == [n]
  {
    if n < 0x80 then [n]
    else if n < 0x800 then [0xC0 + n / 64, 0x80 + n % 64]
    else if n < 0x1_0000 then [0xE0 + n / 4096, 0x80 + n / 64 % 64, 0x80 + n % 64]
    else [0xF0 + n / 262144, 0x80 + n / 4096 % 64, 0x80 + n / 64 % 64, 0x80 + n % 64]
  }

  /** Each byte as '%' and two upper-case hex digits. */
  function Percent(bytes: seq<nat>): (r: string)
    requires forall k | 0 <= k < |bytes| :: bytes[k] < 256
    ensures |r| == 3 * |bytes|
    ensures forall i | 0 <= i < |r| :: r[i] == '%' || IsUpperHex(r[i])
    decreases |bytes|
  {
    if bytes == [] then ""
    else ['%', HexDigit(bytes[0] / 16), HexDigit(bytes[0] % 16)] + Percent(bytes[1..])
  }

  function EncodeChar(c: char): (r: string)
    ensures |r| >= 1
    ensures Unreserved(c) ==> r == [c]
    ensures forall i | 0 <= i < |r| :: Unreserved(r[i]) || r[i] == '%' || IsUpperHex(r[i])
  {
    if Unreserved(c) then [c] else Percent(Utf8(c as int))
  }

  /**
   * encodeURIComponent on a string of Unicode scalar values: unreserved
   * characters stay, every other one becomes the percent-escapes of its UTF-8
   * bytes. The result holds only unreserved characters, '%' and hex digits,
   * so in particular no '/'.
   */
  function EncodeURIComponent(s: string): (r: string)
    ensures |r| >= |s|
    ensures forall i | 0 <= i < |r| :: Unreserved(r[i]) || r[i] == '%' || IsUpperHex(r[i])
    ensures NoChar(r, '/')
    decreases |s|
  {
    if s == [] then ""
    else EncodeChar(s[0]) + EncodeURIComponent(s[1..])
  }

  /** A string of unreserved characters is its own encoding. */
  lemma {:induction false} EncodeUnreserved(s: string)
    requires forall i | 0 <= i < |s| :: Unreserved(s[i])
    ensures EncodeURIComponent(s) == s
    decreases |s|
  {
    if s != [] {
      EncodeUnreserved(s[1..]);
      assert [s[0]] + s[1..] == s;
    }
  }

  function EncodeAll(segs: seq<string>): (r: seq<string>)
    ensures |r| == |segs|
    ensures forall k | 0 <= k < |r| :: r[k] == EncodeURIComponent(segs[k])
  {
    seq(|segs|, k requires 0 <= k < |segs| => EncodeURIComponent(segs[k]))
  }

  /** path.split('/').map(encodeURIComponent).join('/'). */
  function EncodedPath(path: string): (r: string)
  {
    Join(EncodeAll(Split(path, '/')), "/")
  }

  /** Each segment is encoded on its own: the encoded path has the same segments, each encoded. */
  lemma EncodedPathSegments(path: string)
    ensures Split(EncodedPath(path), '/') == EncodeAll(Split(path, '/'))
    ensures |Split(EncodedPath(path), '/')| == |Split(path, '/')|
  {
    SplitJoinMapped(EncodeAll(Split(path, '/')), '/');
  }

  /** A path of unreserved characters and '/' is left as it is. */
  lemma EncodedPathPlain(path: string)
    requires forall i | 0 <= i < |path| :: Unreserved(path[i]) || path[i] == '/'
    ensures EncodedPath(path) == path
  {
    var segs := Split(path, '/');
    forall k | 0 <= k < |segs|
      ensures EncodeURIComponent(segs[k]) == segs[k]
    {
      SplitChars(path, '/', k);
      EncodeUnreserved(segs[k]);
    }
    assert EncodeAll(segs) == segs;
    JoinSplit(path, '/');
  }

  /** Every character of a piece of s.split(c) is a character of s other than c. */
  lemma {:induction false} SplitChars(s: string, c: char, k: nat)
    requires k < |Split(s, c)|
    ensures forall i | 0 <= i < |Split(s, c)[k]| :: Split(s, c)[k][i] in s && Split(s, c)[k][i] != c
    decreases |s|
  {
    if s != [] {
      var rest := Split(s[1..], c);
      if s[0] == c {
        if k > 0 {
          SplitChars(s[1..], c, k - 1);
        }
      } else if k == 0 {
        SplitChars(s[1..], c, 0);
        assert Split(s, c)[0] == [s[0]] + rest[0];
      } else {
        SplitChars(s[1..], c, k);
        assert Split(s, c)[k] == rest[k];
      }
    }
  }

  // ---------------------------------------------------------------------------
  // What the preview shows

  /**
   * The component's state: preview requested, the viewer reported failure,
   * the user accepted the text viewer, a user is logged in, the signed url
   * once fetched, and whether the data has loaded.
   */
  datatype PreviewState = PreviewState(
    preview: bool,
    failedToPreview: bool,
    useFallbackViewer: bool,
    user: bool,
    signedUrl: Option<string>,
    dataLoaded: bool)

  /** The first render: preview as autoPreview says, nothing failed, nothing fetched. */
  function Initial(autoPreview: bool, user: bool): (r: PreviewState)
    ensures r.preview == autoPreview && !r.failedToPreview && !r.useFallbackViewer && r.signedUrl.None?
  {
    PreviewState(autoPreview, false, false, user, None, false)
  }

  /** The button, the loading text, the viewer, the failure prompt, or the text viewer as last resort. */
  datatype View = PreviewButton(viewer: string) | Loading | Shown(viewer: string) | FallbackPrompt(viewer: string) | TextFallback

  /**
   * The url given to a viewer is the signed one when a user is logged in and
   * the plain one otherwise; the plain one is never empty, so the url is
   * missing only while the signed one is absent or empty.
   */
  predicate UrlMissing(s: PreviewState) {
    s.user && (s.signedUrl.None? || s.signedUrl.value == "")
  }

  /** The viewer can be invoked: it has the url or data it requires. */
  predicate Ready(v: Viewer, s: PreviewState) {
    !(v.requiresUrlWithAuth && UrlMissing(s)) && !(v.requiresLoadedData && !s.dataLoaded)
  }

  /**
   * The component's output for the selected viewer v; renderThrows says the
   * viewer's render raised, which falls through to the failure prompt.
   */
  function ViewOf(v: Viewer, s: PreviewState, renderThrows: bool): (r: View)
    ensures r.PreviewButton? <==> !s.preview
    ensures r.Loading? <==> s.preview && !Ready(v, s)
    ensures r.Shown? ==> !s.failedToPreview && !renderThrows && r.viewer == v.name
    ensures r.TextFallback? ==> s.useFallbackViewer
  {
    if !s.preview then PreviewButton(v.name)
    else if !Ready(v, s) then Loading
    else if !s.failedToPreview && !renderThrows then Shown(v.name)
    else if !s.useFallbackViewer then FallbackPrompt(v.name)
    else TextFallback
  }

  /** The preview button's click, a viewer's failure report (onError or catch), and accepting the text viewer. */
  function ClickPreview(s: PreviewState): PreviewState { s.(preview := true) }
  function Fail(s: PreviewState): PreviewState { s.(failedToPreview := true) }
  function AcceptFallback(s: PreviewState): PreviewState { s.(useFallbackViewer := true) }

  /**
   * A ready viewer that fails shows the failure prompt first, whether or not
   * its render throws; once the user accepts, the text viewer is shown.
   */
  lemma FallbackFlow(v: Viewer, s: PreviewState, renderThrows: bool)
    requires s.preview && Ready(v, s) && !s.useFallbackViewer
    ensures ViewOf(v, Fail(s), renderThrows) == FallbackPrompt(v.name)
    ensures ViewOf(v, AcceptFallback(Fail(s)), renderThrows) == TextFallback
    ensures !s.failedToPreview ==> ViewOf(v, s, true) == FallbackPrompt(v.name)
  {
  }

  /** Clicking the preview button leaves the button for good. */
  lemma ClickLeavesButton(v: Viewer, s: PreviewState, renderThrows: bool)
    ensures !ViewOf(v, ClickPreview(s), renderThrows).PreviewButton?
    ensures ViewOf(v, ClickPreview(Fail(s)), renderThrows) != Shown(v.name)
  {
  }

  /** The text viewer needs neither url nor data, so once previewing it is never loading. */
  lemma TextViewerReady(s: PreviewState, renderThrows: bool)
    requires s.preview
    ensures ViewOf(ViewerText, s, renderThrows) != Loading
  {
  }

  // ---------------------------------------------------------------------------
  // Text, bytes and JavaScript string lengths

  /** The UTF-8 bytes of a text. */
  function Utf8Text(s: string): (r: seq<nat>)
    ensures |r| >= |s|
    ensures forall k | 0 <= k < |r| :: r[k] < 256
    decreases |s|
  {
    if s == [] then [] else Utf8(s[0] as int) + Utf8Text(s[1..])
  }

  lemma {:induction false} Utf8TextAppend(a: string, b: string)
    ensures Utf8Text(a + b) == Utf8Text(a) + Utf8Text(b)
    decreases |a|
  {
    if a != [] {
      assert (a + b)[0] == a[0];
      assert (a + b)[1..] == a[1..] + b;
      Utf8TextAppend(a[1..], b);
    } else {
      assert a + b == b;
    }
  }

  /** ASCII text has as many bytes and UTF-16 units as characters. */
  lemma {:induction false} AsciiLengths(s: string)
    requires forall i | 0 <= i < |s| :: s[i] as int < 0x80
    ensures |Utf8Text(s)| == |s| && Utf16Length(s) == |s|
    decreases |s|
  {
    if s != [] {
      AsciiLengths(s[1..]);
    }
  }

  /**
   * A text is never longer in UTF-16 units than in UTF-8 bytes, and strictly
   * shorter once it holds a character beyond ASCII.
   */
  lemma {:induction false} Utf16NotLonger(s: string)
    ensures Utf16Length(s) <= |Utf8Text(s)|
    ensures (exists i | 0 <= i < |s| :: s[i] as int >= 0x80) ==> Utf16Length(s) < |Utf8Text(s)|
    decreases |s|
  {
    if s != [] {
      Utf16NotLonger(s[1..]);
      var n := s[0] as int;
      assert |Utf8(n)| == (if n < 0x80 then 1 else if n < 0x800 then 2 else if n < 0x1_0000 then 3 else 4);
      if exists i | 0 <= i < |s| :: s[i] as int >= 0x80 {
        var i :| 0 <= i < |s| && s[i] as int >= 0x80;
        if i > 0 {
          assert s[1..][i - 1] == s[i];
        }
      }
    }
  }

  // ---------------------------------------------------------------------------
  // The text viewer's paging

  /** The chunk size of the text viewer. */
  const ChunkLength := 16 * 1024

  /** A request for a chunk of the raw file. */
  datatype Request = Request(url: string, offset: nat, length: nat)

  /**
   * The text viewer's state: the text so far (null at first), whether more may
   * follow, and the loading flag. Lengths are JavaScript's, in UTF-16 units.
   */
  class TextPreview {
    const uploadId: string
    const path: string
    var contents: Option<string>
    var hasMore: bool
    var loading: bool

    constructor (uploadId: string, path: string)
      ensures this.uploadId == uploadId && this.path == path
      ensures contents == None && hasMore && !loading
    {
      this.uploadId := uploadId;
      this.path := path;
      contents := None;
      hasMore := true;
      loading := false;
    }

    /** The url of the raw file the requests go to. */
    function RequestUrl(): string
      reads this
    {
      "/uploads/" + uploadId + "/raw/" + EncodedPath(path)
    }

    /**
     * loadMore as written: a request only while hasMore and not loading, for
     * the next chunk after what is shown (offset `contents?.length || 0`).
     * The statement that would set loading sits inside the comment before it,
     * so nothing changes here.
     */
    method LoadMore() returns (req: Option<Request>)
      ensures req.Some? <==> hasMore && !loading
      ensures req.Some? ==> req.value == Request(RequestUrl(), Utf16Length(contents.GetOr("")), ChunkLength)
    {
      if hasMore && !loading {
        var offset := if contents.Some? then Utf16Length(contents.value) else 0;
        req := Some(Request(RequestUrl(), offset, ChunkLength));
      } else {
        req := None;
      }
    }

    /** loadMore with loading set before the request, as its comment intends. */
    method LoadMoreIntended() returns (req: Option<Request>)
      modifies this
      ensures req.Some? <==> old(hasMore && !loading)
      ensures req.Some? ==> req.value == Request(RequestUrl(), Utf16Length(contents.GetOr("")), ChunkLength)
      ensures loading == (old(loading) || req.Some?)
      ensures contents == old(contents) && hasMore == old(hasMore)
    {
      if hasMore && !loading {
        loading := true;
        var offset := if contents.Some? then Utf16Length(contents.value) else 0;
        req := Some(Request(RequestUrl(), offset, ChunkLength));
      } else {
        req := None;
      }
    }

    /**
     * A response (null possible) is appended to the text; more may follow
     * only after a full chunk, measured in UTF-16 units; loading ends.
     */
    method Receive(response: Option<string>)
      modifies this
      ensures contents == Some(old(contents).GetOr("") + response.GetOr(""))
      ensures hasMore == (response.Some? && Utf16Length(response.value) == ChunkLength)
      ensures !loading
    {
      contents := Some(contents.GetOr("") + response.GetOr(""));
      hasMore := response.Some? && Utf16Length(response.value) == ChunkLength;
      loading := false;
    }

    /** A failed request: the error is raised elsewhere, and loading ends. */
    method RequestFailed()
      modifies this
      ensures !loading && contents == old(contents) && hasMore == old(hasMore)
    {
      loading := false;
    }
  }

  predicate IsPrefix<T(==)>(p: seq<T>, s: seq<T>) {
    |p| <= |s| && s[..|p|] == p
  }

  function Min(a: nat, b: nat): nat { if a < b then a else b }

  /**
   * What the raw endpoint answers for an uncompressed file: the file's bytes
   * from the byte offset on, at most length of them.
   */
  function Respond(file: seq<nat>, req: Request): (r: seq<nat>)
    ensures |r| <= req.length
    ensures req.offset <= |file| ==> r == file[req.offset..Min(req.offset + req.length, |file|)]
  {
    file[Min(req.offset, |file|)..Min(req.offset + req.length, |file|)]
  }

  /**
   * Appending the answer to a request at the number of bytes received keeps
   * those bytes a prefix of the file; a short answer completes them.
   */
  lemma AppendAtOffset(file: seq<nat>, received: seq<nat>, req: Request)
    requires IsPrefix(received, file) && req.offset == |received| && req.length == ChunkLength
    ensures IsPrefix(received + Respond(file, req), file)
    ensures |Respond(file, req)| < ChunkLength ==> received + Respond(file, req) == file
  {
    var r := Respond(file, req);
    assert file[..|received| + |r|] == file[..|received|] + r;
  }

  /**
   * The text viewer as written, on a text file whose first chunk of bytes
   * ends on a character boundary after k characters and holds a character
   * beyond ASCII: the endpoint answers exactly the bytes of those k
   * characters, which are fewer than a chunk in UTF-16 units, so hasMore
   * becomes false and no further request is made, although the file goes on.
   */
  method StopsEarly(uploadId: string, path: string, text: string, k: nat)
    returns (first: Option<Request>, answer: seq<nat>, shown: string, next: Option<Request>)
    requires k < |text| && |Utf8Text(text[..k])| == ChunkLength
    requires exists i | 0 <= i < k :: text[i] as int >= 0x80
    ensures first.Some? && first.value.offset == 0 && first.value.length == ChunkLength
    ensures answer == Respond(Utf8Text(text), first.value) && answer == Utf8Text(text[..k])
    ensures shown == text[..k] && shown != text
    ensures next.None?
  {
    var t := new TextPreview(uploadId, path);
    first := t.LoadMore();
    assert text == text[..k] + text[k..];
    Utf8TextAppend(text[..k], text[k..]);
    answer := Respond(Utf8Text(text), first.value);
    assert answer == Utf8Text(text[..k]);
    var i :| 0 <= i < k && text[i] as int >= 0x80;
    assert text[..k][i] == text[i];
    Utf16NotLonger(text[..k]);
    t.Receive(Some(text[..k]));
    shown := t.contents.GetOr("");
    assert "" + text[..k] == text[..k];
    next := t.LoadMore();
  }

  /**
   * An input StopsEarly applies to: an `é` (two bytes) followed by 16382
   * ASCII letters fills the first chunk of bytes with 16383 characters.
   */
  lemma StopsEarlyInput(text: string)
    requires text == [0xE9 as char] + seq(16382, i => 'a') + ['b']
    ensures 16383 < |text| && |Utf8Text(text[..16383])| == ChunkLength
    ensures text[0] as int >= 0x80
  {
    var a: string := seq(16382, i => 'a');
    assert text[..16383] == [0xE9 as char] + a;
    Utf8TextAppend([0xE9 as char], a);
    AsciiLengths(a);
    assert Utf8Text([0xE9 as char]) == Utf8(0xE9);
  }

  /**
   * The text viewer paging the way the endpoint counts: it keeps the bytes it
   * received, asks at their number, expects more exactly after a full chunk
   * of bytes, and sets loading while a request is out.
   */
  class BytePreview {
    const url: string
    var received: seq<nat>
    var hasMore: bool
    var loading: bool

    constructor (url: string)
      ensures this.url == url && received == [] && hasMore && !loading
    {
      this.url := url;
      received := [];
      hasMore := true;
      loading := false;
    }

    /** The bytes received are the start of the file, and all of it once no more is expected. */
    ghost predicate Tracks(file: seq<nat>)
      reads this
    {
      IsPrefix(received, file) && (!hasMore ==> received == file)
    }

    method LoadMore() returns (req: Option<Request>)
      modifies this
      ensures req.Some? <==> old(hasMore && !loading)
      ensures req.Some? ==> req.value == Request(url, |received|, ChunkLength)
      ensures loading == (old(loading) || req.Some?)
      ensures received == old(received) && hasMore == old(hasMore)
    {
      if hasMore && !loading {
        loading := true;
        req := Some(Request(url, |received|, ChunkLength));
      } else {
        req := None;
      }
    }

    method Receive(answer: seq<nat>)
      modifies this
      ensures received == old(received) + answer
      ensures hasMore == (|answer| == ChunkLength)
      ensures !loading
    {
      received := received + answer;
      hasMore := |answer| == ChunkLength;
      loading := false;
    }
  }

  /**
   * One scroll round of the byte-counting viewer against the endpoint: the
   * bytes received stay the start of the file and are all of it once no more
   * is expected; a round adds a full chunk, or completes the file and stops.
   */
  method LoadRound(p: BytePreview, file: seq<nat>)
    requires p.Tracks(file) && !p.loading
    modifies p
    ensures p.Tracks(file) && !p.loading
    ensures old(p.hasMore) ==>
      (!p.hasMore && p.received == file) || (p.hasMore && |p.received| == old(|p.received|) + ChunkLength)
    ensures !old(p.hasMore) ==> p.received == old(p.received) && !p.hasMore
  {
    var req := p.LoadMore();
    if req.Some? {
      var answer := Respond(file, req.value);
      AppendAtOffset(file, p.received, req.value);
      p.Receive(answer);
    }
  }

  /** Scrolling on with the byte-counting viewer loads the whole file, whatever its text. */
  method LoadAll(url: string, file: seq<nat>) returns (p: BytePreview)
    ensures p.received == file && !p.hasMore
  {
    p := new BytePreview(url);
    while p.hasMore
      invariant p.Tracks(file) && !p.loading
      decreases |file| - |p.received|, if p.hasMore then 1 else 0
    {
      LoadRound(p, file);
    }
  }

  /**
   * Loading the file as written: the scroller calls loadMore twice before the
   * first answer arrives; both calls request the first chunk, and both answers
   * (the text c the first chunk of bytes encodes) are appended, so the first
   * chunk is shown twice.
   */
  method DoubleLoad(uploadId: string, path: string, text: string, c: string)
    returns (first: Option<Request>, second: Option<Request>, shown: string)
    requires Utf8Text(c) == Utf8Text(text)[..Min(ChunkLength, |Utf8Text(text)|)]
    ensures first.Some? && second.Some? && first == second && first.value.offset == 0
    ensures Utf8Text(c) == Respond(Utf8Text(text), first.value)
    ensures shown == c + c
    ensures 0 < |Utf8Text(text)| < 2 * ChunkLength ==> !IsPrefix(Utf8Text(shown), Utf8Text(text))
  {
    var t := new TextPreview(uploadId, path);
    first := t.LoadMore();
    second := t.LoadMore();
    t.Receive(Some(c));
    t.Receive(Some(c));
    shown := t.contents.GetOr("");
    assert "" + c == c;
    Utf8TextAppend(c, c);
    DoubledChunk(Utf8Text(text), Utf8Text(c));
  }

  /** The first chunk twice over is not the start of a file shorter than two chunks. */
  lemma DoubledChunk<T>(file: seq<T>, chunk: seq<T>)
    requires chunk == file[..Min(ChunkLength, |file|)]
    ensures 0 < |file| < 2 * ChunkLength ==> !IsPrefix(chunk + chunk, file)
  {
  }

  /**
   * The same calls with loading set before each request: the second call
   * issues nothing, and the text shown is the first chunk, the start of the
   * file.
   */
  method SingleLoad(uploadId: string, path: string, text: string, c: string)
    returns (first: Option<Request>, second: Option<Request>, shown: string)
    requires Utf8Text(c) == Utf8Text(text)[..Min(ChunkLength, |Utf8Text(text)|)]
    ensures first.Some? && first.value.offset == 0 && second.None?
    ensures Utf8Text(c) == Respond(Utf8Text(text), first.value)
    ensures shown == c
    ensures IsPrefix(Utf8Text(shown), Utf8Text(text))
  {
    var t := new TextPreview(uploadId, path);
    first := t.LoadMoreIntended();
    second := t.LoadMoreIntended();
    t.Receive(Some(c));
    shown := t.contents.GetOr("");
    assert "" + c == c;
    AppendAtOffset(Utf8Text(text), [], first.value);
  }
}
