/**
 * The static-file fallback `do_GET` of src/bhh.py: the request path is
 * appended to the static root as a string, canonicalised, checked with a
 * string-prefix test against the root, and then served as a regular file,
 * as the first index page of a directory, or answered with 403 or 404.
 * The file system is what the code can observe of it through `isfile`,
 * `isdir` and `fstat`: a map from regular-file paths to sizes and a set of
 * directory paths. The MIME lookup is a parameter.
 */
module StaticFiles {

  import opened Options
  import opened Paths
  import opened Decimal

  /** Regular files with their sizes in bytes, and directories, by canonical path. */
  datatype FileSystem = FileSystem(files: map<string, nat>, dirs: set<string>)

  /** `INDEX_PAGE`: the names probed, in order, inside a requested directory. */
  const IndexPages: seq<string> := ["index.html", "index.htm"]

  /** What the resolver settles on before any header is written. */
  datatype Resolution = Forbidden | NotFound | Found(file: string, size: nat)

  /** Status line, the headers `do_GET` sends itself, and the file copied as the body. */
  datatype Response = Response(status: nat, headers: seq<(string, string)>, body: Option<string>)

  const OK: nat := 200
  const FORBIDDEN: nat := 403
  const NOT_FOUND: nat := 404

  /** The traversal guard `path[:len(root)] == root`, with Python's clamping slice. */
  function GuardPasses(root: string, path: string): (ok: bool)
    ensures ok <==> root <= path
  {
    (if |root| <= |path| then path[..|root|] else path) == root
  }

  /**
   * The path probed for index page `name` inside directory `dir`, the
   * canonical form of their join; for a canonical directory and a
   * one-component name that join is already canonical.
   */
  function IndexCandidate(dir: string, name: string): (r: string)
    ensures IsCanonical(r)
    ensures ValidComponent(name) && IsCanonical(dir) ==> r == PathJoin(dir, name)
  {
    PathJoinCanonical(dir, name);
    Canonical(PathJoin(dir, name))
  }

  /** The first of `names` whose candidate under `dir` is a regular file. */
  function FirstIndex(dir: string, names: seq<string>, fs: FileSystem): (r: Option<string>)
    ensures r.Some? ==>
              exists i :: 0 <= i < |names| && r.value == IndexCandidate(dir, names[i]) && r.value in fs.files
                            && forall j :: 0 <= j < i ==> IndexCandidate(dir, names[j]) !in fs.files
    ensures r.None? ==> forall i :: 0 <= i < |names| ==> IndexCandidate(dir, names[i]) !in fs.files
  {
    if names == [] then None
    else
      var t := IndexCandidate(dir, names[0]);
      if t in fs.files then
        Some(t)
      else
        var r := FirstIndex(dir, names[1..], fs);
        assert forall i :: 1 <= i < |names| ==> names[i] == names[1..][i - 1];
        r
  }

  /**
   * Where `do_GET` ends up for a request path: refused exactly when the
   * root is not a string prefix of the canonical path, and otherwise a
   * regular file with its size, or nothing.
   */
  function Locate(root: string, request: string, fs: FileSystem): (r: Resolution)
    ensures r == Forbidden <==> !(root <= Canonical(root + request))
    ensures r.Found? ==> r.file in fs.files && r.size == fs.files[r.file]
  {
    var path := Canonical(root + request);
    if !GuardPasses(root, path) then Forbidden
    else if path in fs.files then Found(path, fs.files[path])
    else if path in fs.dirs then
      match FirstIndex(path, IndexPages, fs)
      case Some(t) => Found(t, fs.files[t])
      case None => NotFound
    else NotFound
  }

  /** The header value `send_header` writes for `mimetypes.guess_type(t)[0]`: `None` prints as "None". */
  function ContentType(mime: Option<string>): string
  {
    match mime
    case Some(m) => m
    case None => "None"
  }

  /**
   * The response `do_GET` sends for a request path: 200 with the copied
   * file as its body, or 403 or 404 with `Content-Length: 0` and no body.
   */
  function GetResponse(root: string, request: string, fs: FileSystem, guessType: string -> Option<string>): (r: Response)
    ensures r.status in {OK, FORBIDDEN, NOT_FOUND}
    ensures r.body.Some? <==> r.status == OK
    ensures r.body.Some? ==> r.body.value in fs.files && |r.headers| == 2
    ensures r.status != OK ==> r.headers == [("Content-Length", "0")]
  {
    match Locate(root, request, fs)
    case Forbidden => Response(FORBIDDEN, [("Content-Length", "0")], None)
    case NotFound => Response(NOT_FOUND, [("Content-Length", "0")], None)
    case Found(t, size) =>
      Response(OK, [("Content-Type", ContentType(guessType(t))), ("Content-Length", NatToDecimal(size))], Some(t))
  }

  /** `do_GET`, step by step: guard, regular file, then the index pages in order. */
  method DoGet(root: string, request: string, fs: FileSystem, guessType: string -> Option<string>)
    returns (resp: Response)
    ensures resp == GetResponse(root, request, fs, guessType)
  {
    var path := Canonical(root + request);
    if !GuardPasses(root, path) {
      resp := Response(FORBIDDEN, [("Content-Length", "0")], None);
      return;
    }
    var found := false;
    var t := "";
    if path in fs.files {
      found, t := true, path;
    } else if path in fs.dirs {
      var i := 0;
      while i < |IndexPages|
        invariant 0 <= i <= |IndexPages|
        invariant !found
        invariant FirstIndex(path, IndexPages, fs) == FirstIndex(path, IndexPages[i..], fs)
      {
        t := IndexCandidate(path, IndexPages[i]);
        if t in fs.files {
          found := true;
          break;
        }
        assert IndexPages[i..][1..] == IndexPages[i + 1..];
        i := i + 1;
      }
    }
    if found {
      resp := Response(OK, [("Content-Type", ContentType(guessType(t))), ("Content-Length", NatToDecimal(fs.files[t]))], Some(t));
    } else {
      resp := Response(NOT_FOUND, [("Content-Length", "0")], None);
    }
  }

  lemma PrefixTrans(a: string, b: string, c: string)
    requires a <= b && b <= c
    ensures a <= c
  {
    assert c[..|a|] == c[..|b|][..|a|];
  }

  /** Every index page name is a single path component. */
  lemma IndexPagesValid()
    ensures forall i :: 0 <= i < |IndexPages| ==> ValidComponent(IndexPages[i])
  {
    assert ValidComponent("index.html");
    assert ValidComponent("index.htm");
  }

  /** An index page found in a canonical directory lies below it. */
  lemma FirstIndexBelow(dir: string, fs: FileSystem)
    requires IsCanonical(dir)
    ensures FirstIndex(dir, IndexPages, fs).Some? ==> dir <= FirstIndex(dir, IndexPages, fs).value
  {
    var r := FirstIndex(dir, IndexPages, fs);
    if r.Some? {
      var i :| 0 <= i < |IndexPages| && r.value == IndexCandidate(dir, IndexPages[i]);
      IndexPagesValid();
      assert r.value == PathJoin(dir, IndexPages[i]);
    }
  }

  /**
   * A served file is a regular file of the given size whose path has the
   * static root as a string prefix: either the canonical request path
   * itself, or the first index page found in that directory.
   */
  lemma LocateFound(root: string, request: string, fs: FileSystem)
    ensures Locate(root, request, fs).Found? ==>
              var c := Canonical(root + request);
              var r := Locate(root, request, fs);
              && r.file in fs.files && r.size == fs.files[r.file]
              && root <= c && c <= r.file && root <= r.file
              && (r.file == c || (c !in fs.files && c in fs.dirs && Some(r.file) == FirstIndex(c, IndexPages, fs)))
  {
    var c := Canonical(root + request);
    var r := Locate(root, request, fs);
    if r.Found? && r.file != c {
      assert FirstIndex(c, IndexPages, fs) == Some(r.file);
      FirstIndexBelow(c, fs);
      PrefixTrans(root, c, r.file);
    }
  }

  /** Nothing is served when neither the path nor any index page in it is a regular file. */
  lemma LocateNotFound(root: string, request: string, fs: FileSystem)
    ensures Locate(root, request, fs) == NotFound <==>
              var c := Canonical(root + request);
              && root <= c && c !in fs.files
              && (c in fs.dirs ==> forall i :: 0 <= i < |IndexPages| ==> IndexCandidate(c, IndexPages[i]) !in fs.files)
  {
  }

  /**
   * The response: 403 or 404 with `Content-Length: 0` and no body, or 200
   * whose `Content-Length` reads back as the size of the served file.
   */
  lemma ResponseHeaders(root: string, request: string, fs: FileSystem, guessType: string -> Option<string>)
    ensures var resp := GetResponse(root, request, fs, guessType);
            && (resp.status == FORBIDDEN <==> !(root <= Canonical(root + request)))
            && (resp.status != OK ==> resp.status in {FORBIDDEN, NOT_FOUND} && resp.headers == [("Content-Length", "0")] && resp.body.None?)
            && (resp.status == OK ==>
                  && resp.body.Some? && resp.body.value in fs.files && root <= resp.body.value
                  && |resp.headers| == 2 && resp.headers[1].0 == "Content-Length"
                  && IsDigits(resp.headers[1].1) && DecimalValue(resp.headers[1].1) == fs.files[resp.body.value]
                  && resp.headers[0] == ("Content-Type", ContentType(guessType(resp.body.value))))
  {
    LocateFound(root, request, fs);
    var r := Locate(root, request, fs);
    if r.Found? {
      DecimalRoundTrip(r.size);
    }
  }

  lemma PrefixCancel(p: string, a: string, b: string)
    ensures p + a <= p + b <==> a <= b
  {
    if a <= b {
      assert (p + b)[..|p + a|] == p + b[..|a|];
    }
    if p + a <= p + b {
      assert b[..|a|] == (p + b)[..|p + a|][|p|..];
    }
  }

  /** Asking for the parent of the static root is refused. */
  lemma ParentForbidden(cs: seq<string>, fs: FileSystem)
    requires ValidComponents(cs) && cs != []
    ensures Locate(Render(cs), "/..", fs) == Forbidden
  {
    CanonicalUp(cs);
    var init := cs[..|cs| - 1];
    assert cs == init + [cs[|cs| - 1]];
    RenderSnoc(init, cs[|cs| - 1]);
  }

  /**
   * The guard is a string-prefix test, not a directory test: for a root
   * `/…/d`, the request `/../name` passes it exactly when `d` is a prefix of
   * `name`, so a sibling directory such as `d_x` is reachable and any other
   * sibling is refused.
   */
  lemma SiblingGuard(cs: seq<string>, name: string, fs: FileSystem)
    requires ValidComponents(cs) && cs != [] && ValidComponent(name)
    ensures Locate(Render(cs), "/../" + name, fs) != Forbidden <==> cs[|cs| - 1] <= name
  {
    var init := cs[..|cs| - 1];
    assert Render(cs) + ("/../" + name) == Render(cs) + "/../" + name;
    CanonicalSibling(cs, name);
    assert cs == init + [cs[|cs| - 1]];
    RenderSnoc(init, cs[|cs| - 1]);
    RenderSnoc(init, name);
    PrefixCancel(if init == [] then "/" else Render(init) + "/", cs[|cs| - 1], name);
  }

  /** The canonical form of `/rel` under the root, when `rel` has no `..` component, extends the root's components. */
  lemma PlainBelow(cs: seq<string>, rel: string) returns (more: seq<string>)
    requires ValidComponents(cs)
    requires forall i :: 0 <= i < |Split(rel)| ==> Split(rel)[i] != ".."
    ensures Canonical(Render(cs) + ("/" + rel)) == Render(cs + more)
  {
    assert Render(cs) + ("/" + rel) == Render(cs) + "/" + rel;
    CanonicalBelow(cs, rel);
    ResolveNoParent(cs, Split(rel));
    var r := Resolve(cs, Split(rel));
    more := r[|cs|..];
    assert r == cs + more;
  }

  /** A request of the form `/rel` with no `..` component stays under the root and passes the guard. */
  lemma PlainRequestPasses(cs: seq<string>, rel: string, fs: FileSystem)
    requires ValidComponents(cs)
    requires forall i :: 0 <= i < |Split(rel)| ==> Split(rel)[i] != ".."
    ensures exists more :: Canonical(Render(cs) + ("/" + rel)) == Render(cs + more)
    ensures Locate(Render(cs), "/" + rel, fs) != Forbidden
  {
    var more := PlainBelow(cs, rel);
    RenderPrefix(cs, more);
  }

}
