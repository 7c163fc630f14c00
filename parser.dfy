/**
 * Mainfile matching of the parsers: the guard chain of MatchingParser.is_mainfile with
 * its sibling rule for mainfile_alternative, BrokenParser.is_mainfile with its two
 * corruption patterns, and Parser.main creating one child archive per mainfile key.
 *
 * The configured regular expressions are predicates on the text they fully match;
 * re.match and re.search are then "some prefix" and "some substring" fully matches.
 * The directory listing and os.path.isfile are inputs.
 */
module Parsing {
  import opened Wrappers
  import opened Strings

  newtype byte = x: int | 0 <= x < 256

  type Bytes = seq<byte>

  /** The language of a compiled pattern: the texts fullmatch accepts. */
  type Pattern<!T> = seq<T> -> bool

  /** pattern.match(s) is not None: the pattern matches a prefix of s. */
  predicate Match<T>(re: Pattern<T>, s: seq<T>) {
    exists j | 0 <= j <= |s| :: re(s[..j])
  }

  /** pattern.search(s) is not None: the pattern matches some slice of s. */
  predicate Search<T>(re: Pattern<T>, s: seq<T>) {
    exists i, j | 0 <= i <= j <= |s| :: re(s[i..j])
  }

  /** The bytes t occur in s at position i. */
  predicate BytesAt(s: Bytes, t: Bytes, i: nat) {
    i + |t| <= |s| && s[i..i + |t|] == t
  }

  /** `t in s` for bytes. */
  predicate ContainsBytes(s: Bytes, t: Bytes) {
    exists i: nat | i <= |s| :: BytesAt(s, t, i)
  }

  // ---------------------------------------------------------------------------
  // os.path on POSIX paths

  /** The position of the last '/' in p. */
  function LastSlash(p: string): (r: Option<nat>)
    ensures r.Some? ==> r.value < |p| && p[r.value] == '/' && NoChar(p[r.value + 1..], '/')
    ensures r.None? ==> NoChar(p, '/')
  {
    if p == [] then None
    else if p[|p| - 1] == '/' then Some(|p| - 1)
    else
      var r := LastSlash(p[..|p| - 1]);
      assert r.Some? ==> p[r.value + 1..] == p[..|p| - 1][r.value + 1..] + [p[|p| - 1]];
      assert p == p[..|p| - 1] + [p[|p| - 1]];
      r
  }

  /** head.rstrip('/'). */
  function StripSlashes(head: string): (r: string)
    ensures |r| <= |head| && r == head[..|r|]
    ensures r == [] || r[|r| - 1] != '/'
  {
    if head == [] || head[|head| - 1] != '/' then head else StripSlashes(head[..|head| - 1])
  }

  predicate AllSlashes(s: string) {
    forall i | 0 <= i < |s| :: s[i] == '/'
  }

  /** posixpath.dirname: everything before the last '/', trailing slashes removed unless only slashes remain. */
  function DirName(p: string): (r: string)
    ensures StartsWith(p, r)
  {
    match LastSlash(p)
    case None => ""
    case Some(i) =>
      var head := p[..i + 1];
      var r := if AllSlashes(head) then head else StripSlashes(head);
      assert p[..|r|] == head[..|r|];
      r
  }

  /** posixpath.join(directory, name). */
  function JoinPath(directory: string, name: string): string
  {
    if StartsWith(name, "/") then name
    else if directory == [] || EndsWith(directory, "/") then directory + name
    else directory + "/" + name
  }

  /** A file in a directory that is not only slashes is found again by joining its directory and its name. */
  lemma DirNameJoin(directory: string, name: string)
    requires directory != [] && directory[|directory| - 1] != '/'
    requires name != [] && NoChar(name, '/')
    ensures DirName(directory + "/" + name) == directory
    ensures JoinPath(DirName(directory + "/" + name), name) == directory + "/" + name
  {
    var p := directory + "/" + name;
    assert p[|directory|] == '/';
    assert p[|directory| + 1..] == name;
    var i := LastSlash(p).value;
    assert i == |directory|;
    var head := p[..i + 1];
    assert head == directory + "/";
    assert !AllSlashes(head) by {
      assert head[|directory| - 1] == directory[|directory| - 1];
    }
    assert StripSlashes(head) == directory by {
      assert head[..|head| - 1] == directory;
    }
    assert !StartsWith(name, "/") by {
      assert name[0] in name;
    }
  }

  // ---------------------------------------------------------------------------
  // MatchingParser

  /** The matching configuration of a MatchingParser. */
  datatype MatchingParser = MatchingParser(
    mainfileBinaryHeader: Option<Bytes>,
    mainfileBinaryHeaderRe: Option<Pattern<byte>>,
    mainfileContentsRe: Option<Pattern<char>>,
    mainfileMimeRe: Pattern<char>,
    mainfileNameRe: Pattern<char>,
    mainfileAlternative: bool,
    supportedCompressions: seq<string>)

  /** The full-match language of '.*': any text without a newline. */
  predicate AnyLine(s: string) {
    NoChar(s, '\n')
  }

  /** The full-match language of 'text/.*'. */
  predicate TextMime(s: string) {
    StartsWith(s, "text/") && AnyLine(s[5..])
  }

  /** The defaults of the constructor: mime 'text/.*', name '.*', no alternative, no compressions. */
  function DefaultParser(): MatchingParser {
    MatchingParser(None, None, None, TextMime, AnyLine, false, [])
  }

  /** With the default mime pattern, a mime type is accepted exactly when it starts with "text/". */
  lemma DefaultMimeMatch(mime: string)
    ensures Match(DefaultParser().mainfileMimeRe, mime) <==> StartsWith(mime, "text/")
  {
    if StartsWith(mime, "text/") {
      var p := mime[..5];
      assert p[..5] == p && p[5..] == [];
      assert TextMime(mime[..5]);
    }
    if Match(TextMime, mime) {
      var j :| 0 <= j <= |mime| && TextMime(mime[..j]);
      assert mime[..j][..5] == mime[..5];
    }
  }

  /** One entry of the directory listing is another mainfile candidate of this parser. */
  function SiblingIsMainfile(p: MatchingParser, directory: string, filename: string, name: string,
                             isFile: string -> bool): bool
  {
    var sibling := JoinPath(directory, name);
    sibling != filename && p.mainfileNameRe(sibling) && isFile(sibling)
  }

  /** The loop over the listing: whether it returns early. */
  function SomeSiblingIsMainfile(p: MatchingParser, directory: string, filename: string, listing: seq<string>,
                                 isFile: string -> bool): (r: bool)
  {
    if listing == [] then false
    else (SiblingIsMainfile(p, directory, filename, listing[0], isFile)
          || SomeSiblingIsMainfile(p, directory, filename, listing[1..], isFile))
  }

  lemma {:induction false} SomeSiblingSpec(p: MatchingParser, directory: string, filename: string,
                                           listing: seq<string>, isFile: string -> bool)
    ensures SomeSiblingIsMainfile(p, directory, filename, listing, isFile)
      <==> exists k | 0 <= k < |listing| :: SiblingIsMainfile(p, directory, filename, listing[k], isFile)
    decreases |listing|
  {
    if listing != [] {
      SomeSiblingSpec(p, directory, filename, listing[1..], isFile);
      assert forall k | 1 <= k < |listing| :: listing[k] == listing[1..][k - 1];
      if exists k | 0 <= k < |listing| :: SiblingIsMainfile(p, directory, filename, listing[k], isFile) {
        var k :| 0 <= k < |listing| && SiblingIsMainfile(p, directory, filename, listing[k], isFile);
        if k > 0 {
          assert listing[1..][k - 1] == listing[k];
        }
      }
    }
  }

  /**
   * MatchingParser.is_mainfile. The listing is os.listdir of the file's directory. A
   * configured binary header with no buffer makes `in` raise TypeError.
   */
  function IsMainfile(p: MatchingParser, filename: string, mime: string, buffer: Option<Bytes>,
                      decodedBuffer: Option<string>, compression: Option<string>,
                      listing: seq<string>, isFile: string -> bool): Result<bool, string>
  {
    if p.mainfileBinaryHeader.Some? && buffer.None? then Failure("TypeError")
    else if p.mainfileBinaryHeader.Some? && !ContainsBytes(buffer.value, p.mainfileBinaryHeader.value) then Success(false)
    else if p.mainfileBinaryHeaderRe.Some? && (buffer.None? || !Search(p.mainfileBinaryHeaderRe.value, buffer.value)) then Success(false)
    else if p.mainfileContentsRe.Some? && (decodedBuffer.None? || !Search(p.mainfileContentsRe.value, decodedBuffer.value)) then Success(false)
    else if !Match(p.mainfileMimeRe, mime) then Success(false)
    else if compression.Some? && compression.value !in p.supportedCompressions then Success(false)
    else if !p.mainfileNameRe(filename) then
      if !p.mainfileAlternative then Success(false)
      else Success(!SomeSiblingIsMainfile(p, DirName(filename), filename, listing, isFile))
    else Success(true)
  }

  /** Every condition the guard chain imposes, stated at once; the sibling rule as an existential. */
  ghost predicate AllGuardsPass(p: MatchingParser, filename: string, mime: string, buffer: Option<Bytes>,
                                decodedBuffer: Option<string>, compression: Option<string>,
                                listing: seq<string>, isFile: string -> bool)
  {
    (p.mainfileBinaryHeader.Some? ==> buffer.Some? && ContainsBytes(buffer.value, p.mainfileBinaryHeader.value))
    && (p.mainfileBinaryHeaderRe.Some? ==> buffer.Some? && Search(p.mainfileBinaryHeaderRe.value, buffer.value))
    && (p.mainfileContentsRe.Some? ==> decodedBuffer.Some? && Search(p.mainfileContentsRe.value, decodedBuffer.value))
    && Match(p.mainfileMimeRe, mime)
    && (compression.Some? ==> compression.value in p.supportedCompressions)
    && (p.mainfileNameRe(filename)
        || (p.mainfileAlternative
            && forall k | 0 <= k < |listing| :: !SiblingIsMainfile(p, DirName(filename), filename, listing[k], isFile)))
  }

  /**
   * is_mainfile returns True exactly when every guard passes; it raises only for a
   * configured binary header without a buffer, and otherwise returns False.
   */
  lemma IsMainfileSpec(p: MatchingParser, filename: string, mime: string, buffer: Option<Bytes>,
                       decodedBuffer: Option<string>, compression: Option<string>,
                       listing: seq<string>, isFile: string -> bool)
    ensures var r := IsMainfile(p, filename, mime, buffer, decodedBuffer, compression, listing, isFile);
      (r == Success(true) <==> AllGuardsPass(p, filename, mime, buffer, decodedBuffer, compression, listing, isFile))
      && (r.Failure? <==> p.mainfileBinaryHeader.Some? && buffer.None?)
  {
    SomeSiblingSpec(p, DirName(filename), filename, listing, isFile);
  }

  /**
   * The sibling rule: a file whose name does not fully match the name pattern is still a
   * mainfile of an alternative parser, unless another file of its directory fully matches.
   */
  lemma SiblingRule(p: MatchingParser, filename: string, mime: string, buffer: Option<Bytes>,
                    decodedBuffer: Option<string>, compression: Option<string>,
                    listing: seq<string>, isFile: string -> bool)
    requires p.mainfileBinaryHeader.None? && p.mainfileBinaryHeaderRe.None? && p.mainfileContentsRe.None?
    requires Match(p.mainfileMimeRe, mime) && compression.None?
    requires !p.mainfileNameRe(filename)
    ensures IsMainfile(p, filename, mime, buffer, decodedBuffer, compression, listing, isFile)
      == Success(p.mainfileAlternative
        && forall k | 0 <= k < |listing| :: !SiblingIsMainfile(p, DirName(filename), filename, listing[k], isFile))
  {
    SomeSiblingSpec(p, DirName(filename), filename, listing, isFile);
  }

  /** The file itself, listed in its own directory, never counts as its sibling. */
  lemma NotOwnSibling(p: MatchingParser, directory: string, name: string, isFile: string -> bool)
    requires directory != [] && directory[|directory| - 1] != '/'
    requires name != [] && NoChar(name, '/')
    ensures !SiblingIsMainfile(p, DirName(directory + "/" + name), directory + "/" + name, name, isFile)
  {
    DirNameJoin(directory, name);
  }

  // ---------------------------------------------------------------------------
  // BrokenParser

  /** A search for '^pid=[0-9]+': "pid=" and a digit at the very start. */
  predicate PidPattern(s: string) {
    StartsWith(s, "pid=") && |s| > 4 && IsDigit(s[4])
  }

  /** Scanning '.* library:' from position k: the text reaches " library:" before any newline. */
  function LibraryFrom(s: string, k: nat): bool
    decreases |s| - k
  {
    if k + 9 > |s| then false
    else if OccursAt(s, " library:", k) then true
    else if s[k] == '\n' then false
    else LibraryFrom(s, k + 1)
  }

  /** LibraryFrom finds a " library:" with no newline between k and it. */
  lemma {:induction false} LibraryFromSpec(s: string, k: nat)
    ensures LibraryFrom(s, k) <==> exists j | k <= j && j + 9 <= |s| :: NoChar(s[k..j], '\n') && OccursAt(s, " library:", j)
    decreases |s| - k
  {
    if k + 9 <= |s| && !OccursAt(s, " library:", k) {
      if s[k] != '\n' {
        LibraryFromSpec(s, k + 1);
        if exists j | k + 1 <= j && j + 9 <= |s| :: NoChar(s[k + 1..j], '\n') && OccursAt(s, " library:", j) {
          var j :| k + 1 <= j && j + 9 <= |s| && NoChar(s[k + 1..j], '\n') && OccursAt(s, " library:", j);
          assert s[k..j] == [s[k]] + s[k + 1..j];
        }
        if exists j | k <= j && j + 9 <= |s| :: NoChar(s[k..j], '\n') && OccursAt(s, " library:", j) {
          var j :| k <= j && j + 9 <= |s| && NoChar(s[k..j], '\n') && OccursAt(s, " library:", j);
          assert j != k;
          assert s[k + 1..j] == s[k..j][1..];
        }
      } else {
        forall j | k <= j && j + 9 <= |s| && OccursAt(s, " library:", j) ensures !NoChar(s[k..j], '\n') {
          assert j != k;
          assert s[k..j][0] == '\n';
        }
      }
    } else if k + 9 <= |s| {
      assert NoChar(s[k..k], '\n');
    }
  }

  /** A search for "^Can't open .* library:.*": the prefix, then " library:" later on the same line. */
  predicate CantOpenPattern(s: string) {
    StartsWith(s, "Can't open ") && LibraryFrom(s, 11)
  }

  /** BrokenParser.is_mainfile: a decoded buffer that starts like a pid log or a library load failure. */
  function BrokenIsMainfile(decodedBuffer: Option<string>): bool
  {
    decodedBuffer.Some? && (PidPattern(decodedBuffer.value) || CantOpenPattern(decodedBuffer.value))
  }

  /** The corruption patterns in terms of the text itself. */
  lemma BrokenIsMainfileSpec(decodedBuffer: Option<string>)
    ensures BrokenIsMainfile(decodedBuffer) <==> (decodedBuffer.Some? &&
      var s := decodedBuffer.value;
      (StartsWith(s, "pid=") && |s| > 4 && IsDigit(s[4]))
      || (StartsWith(s, "Can't open ")
          && exists j | 11 <= j && j + 9 <= |s| :: NoChar(s[11..j], '\n') && OccursAt(s, " library:", j)))
  {
    if decodedBuffer.Some? {
      LibraryFromSpec(decodedBuffer.value, 11);
    }
  }

  // ---------------------------------------------------------------------------
  // Parser.main

  /** An EntryArchive, with whether its EntryMetadata section was created. */
  class EntryArchive {
    var hasMetadata: bool

    constructor()
      ensures !hasMetadata
    {
      hasMetadata := false;
    }

    method CreateMetadata()
      modifies this
      ensures hasMetadata
    {
      hasMetadata := true;
    }
  }

  /**
   * Parser.main up to the parse call: the main archive and, when keys are given (a
   * non-empty list), one new archive per key, each with its metadata section. A repeated
   * key keeps the archive created last.
   */
  method PrepareArchives(mainfileKeys: Option<seq<string>>) returns (archive: EntryArchive, childArchives: Option<map<string, EntryArchive>>)
    ensures fresh(archive) && archive.hasMetadata
    ensures childArchives.Some? <==> mainfileKeys.Some? && mainfileKeys.value != []
    ensures childArchives.Some? ==>
      (forall k :: k in childArchives.value <==> k in mainfileKeys.value)
      && (forall k | k in childArchives.value :: fresh(childArchives.value[k]) && childArchives.value[k].hasMetadata
            && childArchives.value[k] != archive)
      && forall k, l | k in childArchives.value && l in childArchives.value && k != l ::
           childArchives.value[k] != childArchives.value[l]
  {
    archive := new EntryArchive();
    archive.CreateMetadata();
    if mainfileKeys.Some? && mainfileKeys.value != [] {
      var keys := mainfileKeys.value;
      var children: map<string, EntryArchive> := map[];
      var i := 0;
      while i < |keys|
        invariant 0 <= i <= |keys|
        invariant forall k :: k in children <==> k in keys[..i]
        invariant forall k | k in children :: fresh(children[k]) && children[k].hasMetadata && children[k] != archive
        invariant forall k, l | k in children && l in children && k != l :: children[k] != children[l]
        invariant archive.hasMetadata
      {
        var child := new EntryArchive();
        child.CreateMetadata();
        children := children[keys[i] := child];
        assert keys[..i + 1] == keys[..i] + [keys[i]];
        i := i + 1;
      }
      assert keys[..i] == keys;
      childArchives := Some(children);
    } else {
      childArchives := None;
    }
  }
}
