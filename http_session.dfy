/**
 * The string helpers of the HTTP session: the file-extension lookup of a
 * MIME type, the joining of a document root and a request path, and the
 * fixed "bad request" answer given to every HTTP request.
 */
module HttpSession {
  import opened Wrappers

  /** ASCII lower-casing, the only case folding the comparison does. */
  function LowerChar(c: char): (l: char)
    ensures 'A' <= c <= 'Z' ==> l as int == c as int + 32
    ensures !('A' <= c <= 'Z') ==> l == c
  {
    if 'A' <= c <= 'Z' then (c as int + 32) as char else c
  }

  function Lower(s: string): (l: string)
    ensures |l| == |s|
    ensures forall i :: 0 <= i < |s| ==> l[i] == LowerChar(s[i])
  {
    if s == [] then [] else [LowerChar(s[0])] + Lower(s[1..])
  }

  /** Case-insensitive ASCII equality of two strings. */
  predicate IEquals(a: string, b: string)
  {
    Lower(a) == Lower(b)
  }

  /** Position of the last '.' in s, if there is one. */
  function LastDot(s: string): (r: Option<nat>)
    ensures r.None? <==> '.' !in s
    ensures r.Some? ==> r.value < |s| && s[r.value] == '.' && '.' !in s[r.value + 1..]
  {
    if s == [] then None
    else if s[|s| - 1] == '.' then Some(|s| - 1)
    else
      var r := LastDot(s[..|s| - 1]);
      assert s[..|s| - 1] + [s[|s| - 1]] == s;
      if r.Some? then
        assert s[r.value + 1..] == s[..|s| - 1][r.value + 1..] + [s[|s| - 1]];
        r
      else None
  }

  /**
   * The extension of a path: the suffix that starts at the last '.', dot
   * included, or the empty string when there is no dot.
   */
  function Extension(path: string): (ext: string)
    ensures ext == [] <==> '.' !in path
    ensures ext != [] ==> ext[0] == '.' && '.' !in ext[1..]
    ensures |ext| <= |path| && path[|path| - |ext|..] == ext
  {
    match LastDot(path)
    case None => []
    case Some(pos) => path[pos..]
  }

  /** The extensions the lookup knows, in the order it tries them. */
  const Table: seq<(string, string)> := [
    (".htm", "text/html"),
    (".html", "text/html"),
    (".php", "text/html"),
    (".css", "text/css"),
    (".txt", "text/plain"),
    (".js", "application/javascript"),
    (".json", "application/json"),
    (".xml", "application/xml"),
    (".swf", "application/x-shockwave-flash"),
    (".flv", "video/x-flv"),
    (".png", "image/png"),
    (".jpe", "image/jpeg"),
    (".jpeg", "image/jpeg"),
    (".jpg", "image/jpeg"),
    (".gif", "image/gif"),
    (".bmp", "image/bmp"),
    (".ico", "image/vnd.microsoft.icon"),
    (".tiff", "image/tiff"),
    (".tif", "image/tiff"),
    (".svg", "image/svg+xml"),
    (".svgz", "image/svg+xml")
  ]

  const DefaultType: string := "application/text"

  /** The first entry of `table` from index `k` on whose extension matches `ext`. */
  function Lookup(ext: string, table: seq<(string, string)>, k: nat): (t: string)
    requires k <= |table|
    ensures (forall i :: k <= i < |table| ==> !IEquals(ext, table[i].0)) ==> t == DefaultType
    ensures (exists i :: k <= i < |table| && IEquals(ext, table[i].0)) ==>
      exists i :: k <= i < |table| && IEquals(ext, table[i].0) && t == table[i].1 &&
        forall j :: k <= j < i ==> !IEquals(ext, table[j].0)
    decreases |table| - k
  {
    if k == |table| then DefaultType
    else if IEquals(ext, table[k].0) then table[k].1
    else Lookup(ext, table, k + 1)
  }

  function MimeType(path: string): string
  {
    Lookup(Extension(path), Table, 0)
  }

  /** Entries before index k that do not match leave the lookup to the rest. */
  lemma {:induction false} LookupSkips(ext: string, table: seq<(string, string)>, k: nat, j: nat)
    requires k <= j < |table|
    requires forall i :: k <= i < j ==> !IEquals(ext, table[i].0)
    requires IEquals(ext, table[j].0)
    ensures Lookup(ext, table, k) == table[j].1
    decreases j - k
  {
    if k < j {
      LookupSkips(ext, table, k + 1, j);
    }
  }

  lemma {:induction false} LookupMisses(ext: string, table: seq<(string, string)>, k: nat)
    requires k <= |table|
    requires forall i :: k <= i < |table| ==> !IEquals(ext, table[i].0)
    ensures Lookup(ext, table, k) == DefaultType
    decreases |table| - k
  {
    if k < |table| {
      LookupMisses(ext, table, k + 1);
    }
  }

  /** Lower-casing maps '.' and only '.' to '.'. */
  lemma LowerKeepsDots(s: string)
    ensures forall i :: 0 <= i < |s| ==> (Lower(s)[i] == '.' <==> s[i] == '.')
  {
  }

  lemma {:induction false} LastDotOfLower(s: string)
    ensures LastDot(Lower(s)) == LastDot(s)
  {
    LowerKeepsDots(s);
    if s != [] {
      var s' := s[..|s| - 1];
      assert Lower(s)[..|s| - 1] == Lower(s');
      LastDotOfLower(s');
    }
  }

  /** The extension of the lower-cased path is the lower-cased extension. */
  lemma ExtensionOfLower(path: string)
    ensures Extension(Lower(path)) == Lower(Extension(path))
  {
    LastDotOfLower(path);
    match LastDot(path)
    case None =>
    case Some(pos) =>
      assert Lower(path)[pos..] == Lower(path[pos..]);
  }

  /** Two paths that differ only in the case of ASCII letters get the same type. */
  lemma MimeTypeIgnoresCase(p: string, q: string)
    requires Lower(p) == Lower(q)
    ensures MimeType(p) == MimeType(q)
  {
    ExtensionOfLower(p);
    ExtensionOfLower(q);
    assert IEquals(Extension(p), Extension(q));
    LookupIgnoresCase(Extension(p), Extension(q), Table, 0);
  }

  lemma {:induction false} LookupIgnoresCase(a: string, b: string, table: seq<(string, string)>, k: nat)
    requires k <= |table| && IEquals(a, b)
    ensures Lookup(a, table, k) == Lookup(b, table, k)
    decreases |table| - k
  {
    if k < |table| {
      LookupIgnoresCase(a, b, table, k + 1);
    }
  }

  predicate NoUpper(s: string)
  {
    forall i :: 0 <= i < |s| ==> !('A' <= s[i] <= 'Z')
  }

  lemma LowerOfNoUpper(s: string)
    requires NoUpper(s)
    ensures Lower(s) == s
  {
  }

  /** The shape of an extension: a dot, then no further dot. */
  predicate IsExtension(ext: string)
  {
    ext != [] && ext[0] == '.' && '.' !in ext[1..]
  }

  /**
   * The listed extensions are extensions written in lower case, and they
   * are pairwise different.
   */
  lemma TableWellFormed()
    ensures forall i :: 0 <= i < |Table| ==> NoUpper(Table[i].0) && IsExtension(Table[i].0)
    ensures forall i, j :: 0 <= i < j < |Table| ==> Table[i].0 != Table[j].0
  {
    TableLowerCase();
    TableExtensions();
    TableDistinct();
  }

  lemma TableLowerCase()
    ensures forall i :: 0 <= i < |Table| ==> NoUpper(Table[i].0)
  {
  }

  lemma TableExtensions()
    ensures forall i :: 0 <= i < |Table| ==> IsExtension(Table[i].0)
  {
  }

  lemma TableDistinct()
    ensures forall i, j :: 0 <= i < j < |Table| ==> Table[i].0 != Table[j].0
  {
  }

  /** A path ending in an extension has that extension. */
  lemma ExtensionOfSuffix(stem: string, ext: string)
    requires IsExtension(ext)
    ensures Extension(stem + ext) == ext
  {
    var p := stem + ext;
    assert p[|stem|] == '.' && p[|stem| + 1..] == ext[1..];
  }

  /** Matching ignores case, so anything matching a listed extension is an extension. */
  lemma MatchIsExtension(ext: string, listed: string)
    requires IsExtension(listed) && IEquals(ext, listed) && NoUpper(listed)
    ensures IsExtension(ext)
  {
    LowerOfNoUpper(listed);
    LowerKeepsDots(ext);
    assert Lower(ext) == listed;
    assert ext[0] == '.';
    forall i | 1 <= i < |ext|
      ensures ext[i] != '.'
    {
      assert listed[i] == listed[1..][i - 1];
    }
  }

  /** A path ending in a listed extension, in any case, gets that entry's type. */
  lemma ListedExtension(stem: string, ext: string, j: nat)
    requires j < |Table| && IEquals(ext, Table[j].0)
    ensures MimeType(stem + ext) == Table[j].1
  {
    TableWellFormed();
    MatchIsExtension(ext, Table[j].0);
    ExtensionOfSuffix(stem, ext);
    forall i | 0 <= i < j
      ensures !IEquals(ext, Table[i].0)
    {
      LowerOfNoUpper(Table[i].0);
      LowerOfNoUpper(Table[j].0);
    }
    LookupSkips(ext, Table, 0, j);
  }

  /** The three spellings of the JPEG extension, in any case, give one type. */
  lemma JpegSpellings(stem: string)
    ensures MimeType(stem + ".jpe") == "image/jpeg"
    ensures MimeType(stem + ".JPEG") == "image/jpeg"
    ensures MimeType(stem + ".Jpg") == "image/jpeg"
  {
    JpegEntries();
    ListedExtension(stem, ".jpe", 11);
    ListedExtension(stem, ".JPEG", 12);
    ListedExtension(stem, ".Jpg", 13);
  }

  lemma JpegEntries()
    ensures Table[11] == (".jpe", "image/jpeg") && IEquals(".jpe", ".jpe")
    ensures Table[12] == (".jpeg", "image/jpeg") && IEquals(".JPEG", ".jpeg")
    ensures Table[13] == (".jpg", "image/jpeg") && IEquals(".Jpg", ".jpg")
  {
    assert Lower(".JPEG") == ".jpeg" && Lower(".Jpg") == ".jpg";
  }

  /** A path without a dot gets the default type. */
  lemma NoExtension(path: string)
    requires '.' !in path
    ensures MimeType(path) == DefaultType
  {
    LookupMisses([], Table, 0);
  }

  /** A path whose extension is not listed, in any case, gets the default type. */
  lemma UnlistedExtension(path: string)
    requires forall i :: 0 <= i < |Table| ==> !IEquals(Extension(path), Table[i].0)
    ensures MimeType(path) == DefaultType
  {
    LookupMisses(Extension(path), Table, 0);
  }

  /** The base with at most one trailing '/' dropped. */
  function TrimSlash(base: string): (t: string)
    requires base != []
    ensures t == base || t + "/" == base
    ensures t == base <==> base[|base| - 1] != '/'
  {
    if base[|base| - 1] == '/' then base[..|base| - 1] else base
  }

  /** Appends a request path to a document root. */
  method PathCat(base: string, path: string) returns (result: string)
    ensures base == [] ==> result == path
    ensures base != [] ==> result == TrimSlash(base) + path
  {
    if base == [] {
      return path;
    }
    result := base;
    if result[|result| - 1] == '/' {
      result := result[..|result| - 1];
    }
    result := result + path;
  }

  /** The parts of a request the handler reads. */
  datatype Request = Request(version: nat, keepAlive: bool, verb: string, target: string, body: string)

  datatype Response = Response(
    status: nat, version: nat, server: string, contentType: string,
    keepAlive: bool, body: string, contentLength: nat)

  const BadRequestStatus: nat := 400

  function BadRequest(req: Request, server: string, why: string): (res: Response)
    ensures res.status == BadRequestStatus && res.version == req.version
    ensures res.contentType == "text/html" && res.keepAlive == req.keepAlive
    ensures res.body == why && res.contentLength == |why|
  {
    Response(BadRequestStatus, req.version, server, "text/html", req.keepAlive, why, |why|)
  }

  /** Every request is answered with the same 400 response. */
  function HandleRequest(req: Request, server: string): (res: Response)
    ensures res.status == BadRequestStatus && res.body == "HTTP-methods are not supported"
    ensures res.version == req.version && res.keepAlive == req.keepAlive
    ensures res.contentType == "text/html" && res.contentLength == |res.body|
  {
    BadRequest(req, server, "HTTP-methods are not supported")
  }

  /** The answer depends on nothing but the version and the keep-alive flag. */
  lemma HandleRequestIgnoresContent(r: Request, s: Request, server: string)
    requires r.version == s.version && r.keepAlive == s.keepAlive
    ensures HandleRequest(r, server) == HandleRequest(s, server)
  {
  }
}
