/**
 * Where a downloaded document is stored: the basename of the URL, placed under the
 * download folder, or under a sub-folder named by the first four-digit segment of the
 * URL's path (the release date, such as `0318`).
 */
module Paths {
  import opened Wrappers
  import opened Strings

  /** POSIX `os.path.basename`: the longest suffix without '/', i.e. all text after the last '/'. */
  function Basename(p: string): (name: string)
    ensures '/' !in name
    ensures |name| <= |p| && name == p[|p| - |name|..]
    ensures |name| < |p| ==> p[|p| - |name| - 1] == '/'
    decreases |p|
  {
    if p == [] || p[|p| - 1] == '/' then ""
    else
      var init := p[..|p| - 1];
      var name := Basename(init);
      SuffixSnoc(p, |init| - |name|);
      name + [p[|p| - 1]]
  }

  /** A suffix of all but the last character, followed by the last character, is a suffix. */
  lemma SuffixSnoc(p: string, k: nat)
    requires k < |p|
    ensures p[..|p| - 1][k..] + [p[|p| - 1]] == p[k..]
    ensures forall j :: 0 <= j < |p| - 1 ==> p[..|p| - 1][j] == p[j]
  {
  }

  /** POSIX `os.path.join(a, b)`: `b` is kept whole at the end, after `a` unless `b` is absolute. */
  function PathJoin(a: string, b: string): (r: string)
    ensures |b| <= |r| && r[|r| - |b|..] == b
    ensures !StartsWith(b, "/") ==> StartsWith(r, a)
  {
    if StartsWith(b, "/") then b
    else if a == [] || a[|a| - 1] == '/' then a + b
    else a + "/" + b
  }

  predicate IsDigit(c: char) {
    '0' <= c <= '9'
  }

  /**
   * `re.match(r'^\d{4}$', part)`: four digits; Python's `$` also matches just before
   * one final newline, so a fifth character '\n' is accepted as well.
   */
  predicate IsDateSegment(part: string) {
    (|part| == 4 || (|part| == 5 && part[4] == '\n'))
    && IsDigit(part[0]) && IsDigit(part[1]) && IsDigit(part[2]) && IsDigit(part[3])
  }

  /**
   * Which segments `^\d{4}$` accepts: four digits, also with one final newline; not three
   * digits, not five, not a digit run with anything after the newline.
   */
  lemma DateSegmentShapes()
    ensures IsDateSegment("0318") && IsDateSegment("0318\n")
    ensures !IsDateSegment("318") && !IsDateSegment("03180") && !IsDateSegment("0318\n\n")
    ensures !IsDateSegment("") && !IsDateSegment("03a8") && !IsDateSegment("0318x")
  {
  }

  /** Position of the first date segment, or `|parts|` when there is none. */
  function DateIndex(parts: seq<string>): (i: nat)
    ensures i <= |parts|
    ensures i < |parts| ==> IsDateSegment(parts[i])
    ensures forall k :: 0 <= k < i ==> !IsDateSegment(parts[k])
    decreases |parts|
  {
    if parts == [] || IsDateSegment(parts[0]) then 0
    else
      var j := DateIndex(parts[1..]);
      assert forall k :: 1 <= k < 1 + j ==> parts[k] == parts[1..][k - 1];
      1 + j
  }

  /** The sub-folder chosen by the scan of the path segments (the loop that stops at the first match). */
  function DateFolder(parts: seq<string>): Option<string> {
    var i := DateIndex(parts);
    if i < |parts| then Some(parts[i]) else None
  }

  /**
   * The local path of `url` under `folder`; `urlPath` is `urlparse(url).path`, which
   * yields `None` when `urlparse` raises, and then there is no destination.
   */
  function Destination(folder: string, url: string, urlPath: string -> Option<string>): Option<string> {
    match urlPath(url)
    case None => None
    case Some(path) =>
      var name := Basename(url);
      match DateFolder(Split(path, '/'))
      case Some(d) => Some(PathJoin(PathJoin(folder, d), name))
      case None => Some(PathJoin(folder, name))
  }

  /** The folder as a prefix: itself when empty or already ending in '/', else followed by one '/'. */
  function Dir(folder: string): (prefix: string)
    ensures StartsWith(prefix, folder) && |prefix| <= |folder| + 1
    ensures prefix == [] || prefix[|prefix| - 1] == '/'
  {
    if folder == [] || folder[|folder| - 1] == '/' then folder else folder + "/"
  }

  /** Joining a relative name onto a folder puts the name right after the folder's prefix: one '/', never two. */
  lemma JoinRelative(a: string, b: string)
    requires b == [] || b[0] != '/'
    ensures PathJoin(a, b) == Dir(a) + b
  {
    assert !StartsWith(b, "/") by {
      if |b| >= 1 {
        assert b[..1][0] == b[0];
      }
    }
  }

  /** The destination of every URL under `folder`, as one function. */
  function Placement(folder: string, urlPath: string -> Option<string>): string -> Option<string> {
    url => Destination(folder, url, urlPath)
  }

  /**
   * The layout: `folder/D/name` where D is the first segment of the URL's path that is a
   * date segment, else `folder/name`; `name` is the basename of the whole URL string, and a
   * folder already ending in '/' gets no second '/'.
   */
  lemma DestinationLayout(folder: string, url: string, urlPath: string -> Option<string>, path: string)
    requires urlPath(url) == Some(path)
    ensures var parts := Split(path, '/');
      var i := DateIndex(parts);
      Destination(folder, url, urlPath)
        == Some(if i < |parts| then Dir(folder) + parts[i] + "/" + Basename(url)
                else Dir(folder) + Basename(url))
  {
    var name := Basename(url);
    assert name == [] || name[0] != '/' by {
      if name != [] { assert name[0] in name; }
    }
    var parts := Split(path, '/');
    var i := DateIndex(parts);
    if i < |parts| {
      var d := parts[i];
      assert IsDigit(d[0]);
      JoinRelative(folder, d);
      var sub := Dir(folder) + d;
      assert sub[|sub| - 1] == d[|d| - 1];
      assert Dir(sub) == sub + "/";
      JoinRelative(sub, name);
    } else {
      JoinRelative(folder, name);
    }
  }

  /** When `urlparse` raises there is no destination. */
  lemma NoPathNoDestination(folder: string, url: string, urlPath: string -> Option<string>)
    requires urlPath(url).None?
    ensures Destination(folder, url, urlPath).None?
  {
  }

  /** Every destination ends with the basename of the URL, query string and fragment included. */
  lemma DestinationEndsWithBasename(folder: string, url: string, urlPath: string -> Option<string>)
    ensures Destination(folder, url, urlPath).Some? ==>
      var dest := Destination(folder, url, urlPath).value;
      var name := Basename(url);
      |name| <= |dest| && dest[|dest| - |name|..] == name
  {
  }

  /** The basename is what follows the last '/': any '/'-free tail after a '/' is the basename. */
  lemma {:induction false} BasenameAfterSlash(p: string, dir: string, name: string)
    requires '/' !in name
    requires p == dir + "/" + name
    ensures Basename(p) == name
  {
    assert p[|p| - |name|..] == name;
    assert p[|p| - |name| - 1] == '/';
  }

  /** The filename keeps the query string: `?` is not a path separator to `os.path.basename`. */
  lemma QueryStaysInFilename(url: string)
    requires url == "https://www.archives.gov/files/a.pdf?v=2"
    ensures Basename(url) == "a.pdf?v=2"
  {
    BasenameAfterSlash(url, "https://www.archives.gov/files", "a.pdf?v=2");
  }

  /** The worked example: a document of the 18 March release. */
  const ReleaseFile: string := "104-10009-10022.pdf"

  /** Its URL path, `/research/jfk/docs/0318/104-10009-10022.pdf`, segment by segment. */
  const ReleasePath: string := "" + "/" + "research" + "/" + "jfk" + "/" + "docs" + "/" + "0318" + "/" + ReleaseFile

  /** Its URL, `https://www.archives.gov/research/jfk/docs/0318/104-10009-10022.pdf`. */
  const ReleaseUrl: string :=
    "https://www.archives.gov" + "/" + "research" + "/" + "jfk" + "/" + "docs" + "/" + "0318" + "/" + ReleaseFile

  /** A path of five '/'-free segments after a leading '/' splits into an empty segment and those five. */
  lemma SplitLeadingSlash(a: string, b: string, c: string, d: string, e: string)
    requires '/' !in a && '/' !in b && '/' !in c && '/' !in d && '/' !in e
    ensures Split("" + "/" + a + "/" + b + "/" + c + "/" + d + "/" + e, '/') == ["", a, b, c, d, e]
  {
    var s1 := "" + "/" + a;
    var s2 := s1 + "/" + b;
    var s3 := s2 + "/" + c;
    var s4 := s3 + "/" + d;
    assert "/" == ['/'];
    assert Split("", '/') == [""];
    SplitAppendPiece("", a, '/');
    SplitAppendPiece(s1, b, '/');
    SplitAppendPiece(s2, c, '/');
    SplitAppendPiece(s3, d, '/');
    SplitAppendPiece(s4, e, '/');
  }

  /** The worked example's path splits into six segments, the first one empty. */
  lemma ReleaseSegments()
    ensures Split(ReleasePath, '/') == ["", "research", "jfk", "docs", "0318", ReleaseFile]
  {
    SplitLeadingSlash("research", "jfk", "docs", "0318", ReleaseFile);
  }

  /** Of those segments the first date segment is the fifth, `0318`. */
  lemma ReleaseDateIndex()
    ensures DateIndex(["", "research", "jfk", "docs", "0318", ReleaseFile]) == 4
  {
    var parts := ["", "research", "jfk", "docs", "0318", ReleaseFile];
    assert IsDateSegment(parts[4]);
    assert !IsDateSegment(parts[0]) && !IsDateSegment(parts[1]) && !IsDateSegment(parts[2]);
    assert !IsDateSegment(parts[3]);
  }

  /**
   * The worked example of the release page: the document lands in the `0318` sub-folder of
   * the download folder (by default `jfk_2025_release`), under its own file name.
   */
  lemma ReleaseExample(folder: string, urlPath: string -> Option<string>)
    requires urlPath(ReleaseUrl) == Some(ReleasePath)
    ensures Destination(folder, ReleaseUrl, urlPath) == Some(Dir(folder) + "0318" + "/" + ReleaseFile)
  {
    var dir := "https://www.archives.gov" + "/" + "research" + "/" + "jfk" + "/" + "docs" + "/" + "0318";
    assert "/" == ['/'];
    BasenameAfterSlash(ReleaseUrl, dir, ReleaseFile);
    ReleaseSegments();
    ReleaseDateIndex();
    DestinationLayout(folder, ReleaseUrl, urlPath, ReleasePath);
  }
}
