/**
 * Worked cases: the template `/test/{testvar}` registered by src/main.py,
 * requests against it, a re-registration, and the static resolver under a
 * root `/srv/static`.
 */
module Scenarios {

  import opened Options
  import opened Templates
  import opened Matcher
  import opened Paths
  import opened StaticFiles
  import opened Router

  /** The template `/test/{testvar}`. */
  const TestTemplate: string := "/test/" + "{testvar}"

  const TestPieces: seq<Piece> := [Lit('/'), Lit('t'), Lit('e'), Lit('s'), Lit('t'), Lit('/'), Cap("testvar")]

  function Literals(lit: string): seq<Piece>
  {
    if lit == [] then [] else [Lit(lit[0])] + Literals(lit[1..])
  }

  lemma CompileLit(t: string)
    requires t != [] && t[0] != '{'
    ensures Compile(t) == [Lit(t[0])] + Compile(t[1..])
    ensures Variables(t) == Variables(t[1..])
  {
  }

  /** Text without `{` compiles to literal pieces and contributes no names. */
  lemma {:induction false} CompileLiteralPrefix(lit: string, rest: string)
    requires '{' !in lit
    ensures Compile(lit + rest) == Literals(lit) + Compile(rest)
    ensures Variables(lit + rest) == Variables(rest)
  {
    if lit == [] {
      assert lit + rest == rest;
    } else {
      var t := lit + rest;
      assert t[0] == lit[0] && t[1..] == lit[1..] + rest;
      assert lit[0] in lit;
      CompileLit(t);
      CompileLiteralPrefix(lit[1..], rest);
    }
  }

  lemma CompileToken()
    ensures Compile("{testvar}") == [Cap("testvar")]
    ensures Variables("{testvar}") == ["testvar"]
  {
    var u := "{testvar}";
    assert IsName(u[1..8]);
    assert TokenOfLen(u, 7);
    assert u[1..8] == "testvar";
    assert u[9..] == [];
  }

  lemma LiteralsTest()
    ensures Literals("/test/") == [Lit('/'), Lit('t'), Lit('e'), Lit('s'), Lit('t'), Lit('/')]
  {
    assert Literals("/") == [Lit('/')] + Literals([]);
    assert Literals("t/") == [Lit('t')] + Literals("/");
    assert Literals("st/") == [Lit('s')] + Literals("t/");
    assert Literals("est/") == [Lit('e')] + Literals("st/");
    assert Literals("test/") == [Lit('t')] + Literals("est/");
    assert Literals("/test/") == [Lit('/')] + Literals("test/");
  }

  /** `/test/{testvar}` compiles to six literals and one capture named `testvar`. */
  lemma CompileTestTemplate()
    ensures Compile(TestTemplate) == TestPieces
    ensures Variables(TestTemplate) == ["testvar"]
  {
    CompileToken();
    CompileLiteralPrefix("/test/", "{testvar}");
    LiteralsTest();
  }

  /** Its one placeholder takes a whole segment. */
  lemma TestPiecesSegment()
    ensures SegmentTemplate(TestPieces)
  {
  }

  /** Filling the capture of `/test/{testvar}` with `x` gives `/test/` followed by `x`. */
  lemma FillTest(x: string)
    ensures CapCount(TestPieces) == 1
    ensures Fill(TestPieces, [x]) == "/test/" + x
  {
    LiteralsTest();
    assert TestPieces == Literals("/test/") + [Cap("testvar")];
    FillLiteralsCap("/test/", "testvar", x);
  }

  /** Literal text followed by one placeholder fills to that text followed by the capture. */
  lemma {:induction false} FillLiteralsCap(lit: string, name: string, x: string)
    ensures CapCount(Literals(lit) + [Cap(name)]) == 1
    ensures Fill(Literals(lit) + [Cap(name)], [x]) == lit + x
  {
    var p := Literals(lit) + [Cap(name)];
    if lit == [] {
      assert p == [Cap(name)];
      assert p[1..] == [];
      assert CapNames(p) == [name] + CapNames([]);
    } else {
      assert p[0] == Lit(lit[0]) && p[1..] == Literals(lit[1..]) + [Cap(name)];
      FillLiteralsCap(lit[1..], name, x);
      assert lit + x == [lit[0]] + (lit[1..] + x);
    }
  }

  /** A `/`-free `x` after `/test/`, with or without a trailing `/`, is the capture. */
  lemma MatchTest(x: string, s: string)
    requires NoSlash(x) && (s == "/test/" + x || s == "/test/" + x + "/")
    ensures Match(TestPieces, s) == Some([x])
  {
    TestPiecesSegment();
    FillTest(x);
    MatchSegments(TestPieces, s, [x]);
  }

  /** `/test/x` matches with `testvar = "x"`. */
  lemma MatchPlain()
    ensures Match(TestPieces, "/test/x") == Some(["x"])
  {
    assert "/test/" + "x" == "/test/x";
    MatchTest("x", "/test/" + "x");
  }

  /** `/test/x/` matches too: one trailing `/` is always accepted. */
  lemma MatchTrailingSlash()
    ensures Match(TestPieces, "/test/x/") == Some(["x"])
  {
    assert "/test/" + "x" + "/" == "/test/x/";
    MatchTest("x", "/test/" + "x" + "/");
  }

  /** `/test/` matches with an empty capture. */
  lemma MatchEmptyCapture()
    ensures Match(TestPieces, "/test/") == Some([""])
  {
    assert "/test/" + "" == "/test/";
    MatchTest("", "/test/" + "");
  }

  /** The capture is the raw text of the path: `%20` is not decoded. */
  lemma MatchNotDecoded()
    ensures Match(TestPieces, "/test/hello%20world") == Some(["hello%20world"])
  {
    assert "/test/" + "hello%20world" == "/test/hello%20world";
    MatchTest("hello%20world", "/test/" + "hello%20world");
  }

  /** A capture that fills `/test/` up to a path with a second segment holds a `/`. */
  lemma NestedCapture(x: string, y: string, c: string)
    requires y != []
    requires var f := Fill(TestPieces, [c]); "/test/" + x + "/" + y in {f, f + "/"}
    ensures '/' in c
  {
    FillTest(c);
    var s := "/test/" + x + "/" + y;
    var f := "/test/" + c;
    assert s[6 + |x|] == '/';
    assert |c| > |x|;
    assert f[6 + |x|] == c[|x|];
    assert s[6 + |x|] == f[6 + |x|];
  }

  /** A path with a second segment after `/test/x/` is rejected, whatever the segments hold. */
  lemma MatchRejectsNested(x: string, y: string)
    requires y != []
    ensures Match(TestPieces, "/test/" + x + "/" + y) == None
  {
    var s := "/test/" + x + "/" + y;
    MatchIff(TestPieces, s);
    forall caps | Accepts(TestPieces, s, caps) ensures false {
      FillTest(caps[0]);
      assert caps == [caps[0]];
      NestedCapture(x, y, caps[0]);
    }
  }

  /** A path outside `/test/` is rejected. */
  lemma MatchRejectsElsewhere()
    ensures Match(TestPieces, "/unknown") == None
  {
    assert Match(TestPieces, "/unknown") == Match(TestPieces[1..], "unknown");
  }

  const Echo: Handler := Handler(1)

  /** The registry src/main.py builds: `GET /test/{testvar}` handled by `Echo`. */
  function TestRoutes(): map<string, Route>
  {
    map[TestTemplate := Route(map["GET" := Echo], TestPieces, ["testvar"])]
  }

  /** Registering `Echo` for GET on `/test/{testvar}` in the empty registry builds exactly that registry. */
  lemma TestRoutesRegistered()
    ensures Registered([], map[], "GET", TestTemplate, Echo) == ([TestTemplate], TestRoutes())
  {
    CompileTestTemplate();
    var r := Registered([], map[], "GET", TestTemplate, Echo);
    assert r.0 == [] + [TestTemplate] == [TestTemplate];
    assert r.1.Keys == TestRoutes().Keys;
    assert r.1[TestTemplate].handlers == map[]["GET" := Echo] == map["GET" := Echo];
    assert r.1[TestTemplate] == TestRoutes()[TestTemplate];
    assert r.1 == TestRoutes();
  }

  lemma TestRegistryWellFormed()
    ensures WellFormed([TestTemplate], TestRoutes())
  {
    CompileTestTemplate();
  }

  /** GET on `/test/x`, for any `/`-free `x`, runs the handler with the raw text `x` as `testvar`. */
  lemma DispatchEcho(x: string, root: string, fs: FileSystem, guessType: string -> Option<string>)
    requires NoSlash(x)
    ensures WellFormed([TestTemplate], TestRoutes())
    ensures Dispatch([TestTemplate], TestRoutes(), "GET", "/test/" + x, root, fs, guessType)
         == External(TestTemplate, Echo, map["testvar" := x])
  {
    TestRegistryWellFormed();
    MatchTest(x, "/test/" + x);
    assert FirstMatch([TestTemplate], TestRoutes(), "/test/" + x) == Some(0);
    assert Bind(["testvar"], [x]) == map["testvar" := x];
  }

  /**
   * Any command other than GET on `/test/x` matches the template, which has
   * no handler for it, and is answered 501.
   */
  lemma DispatchMatchedWithoutMethod(command: string, x: string, root: string, fs: FileSystem,
                                     guessType: string -> Option<string>)
    requires NoSlash(x) && command != "GET"
    ensures WellFormed([TestTemplate], TestRoutes())
    ensures Dispatch([TestTemplate], TestRoutes(), command, "/test/" + x, root, fs, guessType) == NotImplemented(command)
  {
    TestRegistryWellFormed();
    MatchTest(x, "/test/" + x);
    assert FirstMatch([TestTemplate], TestRoutes(), "/test/" + x) == Some(0);
  }

  /** POST on a path no template matches is answered 501; GET goes to the static files. */
  lemma DispatchUnknown(root: string, fs: FileSystem, guessType: string -> Option<string>)
    ensures WellFormed([TestTemplate], TestRoutes())
    ensures Dispatch([TestTemplate], TestRoutes(), "POST", "/unknown", root, fs, guessType) == NotImplemented("POST")
    ensures Dispatch([TestTemplate], TestRoutes(), "GET", "/unknown", root, fs, guessType)
         == Static(GetResponse(root, "/unknown", fs, guessType))
  {
    TestRegistryWellFormed();
    MatchRejectsElsewhere();
  }

  /**
   * Registering a template for GET, then for POST, then for GET again: the
   * template is listed once, keeps the matcher compiled the first time, and
   * the second GET handler replaces the first while the POST one stays.
   */
  lemma ReRegistration(template: string, h1: Handler, h2: Handler, h3: Handler)
    ensures var (o1, r1) := Registered([], map[], "GET", template, h1);
            var (o2, r2) := Registered(o1, r1, "POST", template, h2);
            var (o3, r3) := Registered(o2, r2, "GET", template, h3);
            && o1 == o2 == o3 == [template]
            && r3.Keys == {template}
            && r3[template].matcher == r1[template].matcher == Compile(template)
            && r3[template].handlers == map["GET" := h3, "POST" := h2]
  {
    var (o1, r1) := Registered([], map[], "GET", template, h1);
    assert o1 == [template] && r1.Keys == {template};
    var (o2, r2) := Registered(o1, r1, "POST", template, h2);
    assert r2[template].handlers == map["GET" := h1, "POST" := h2];
    var (o3, r3) := Registered(o2, r2, "GET", template, h3);
    assert r3[template].handlers == map["GET" := h1, "POST" := h2]["GET" := h3];
  }

  /** The static root `/srv/static`. */
  const RootParts: seq<string> := ["srv", "static"]

  lemma RootValid()
    ensures ValidComponents(RootParts) && Render(RootParts) == "/srv/static"
  {
    assert ValidComponent("srv") && ValidComponent("static");
    assert JoinSlash(RootParts) == "srv" + "/" + JoinSlash(["static"]);
  }

  /** `/../secret` climbs out of `/srv/static` and is refused. */
  lemma StaticOutsideRefused(fs: FileSystem)
    ensures Locate("/srv/static", "/../secret", fs) == Forbidden
  {
    RootValid();
    assert ValidComponent("secret");
    assert "static"[1] != "secret"[1];
    SiblingGuard(RootParts, "secret", fs);
    assert "/../" + "secret" == "/../secret";
  }

  /** `/../static_x` also climbs out, yet passes the guard: `static` is a string prefix of `static_x`. */
  lemma StaticSiblingPasses(fs: FileSystem)
    ensures Locate("/srv/static", "/../static_x", fs) != Forbidden
  {
    RootValid();
    assert ValidComponent("static_x");
    assert "static_x"[..6] == "static";
    SiblingGuard(RootParts, "static_x", fs);
    assert "/../" + "static_x" == "/../static_x";
  }

  /** `/srv/static` + `/` canonicalises to the root itself. */
  lemma CanonicalRootSlash()
    ensures Canonical(Render(RootParts) + "/") == Render(RootParts)
  {
    RootValid();
    assert Render(RootParts) + "/" == Render(RootParts) + "/" + "";
    CanonicalBelow(RootParts, "");
    assert Resolve(RootParts, [""]) == Resolve(RootParts, []) == RootParts;
  }

  /** The first index candidate in the root is `/srv/static/index.html`, which differs from the root. */
  lemma RootIndexCandidate()
    ensures IndexCandidate(Render(RootParts), "index.html") == Render(RootParts + ["index.html"])
    ensures Render(RootParts) != Render(RootParts + ["index.html"])
  {
    RootValid();
    assert ValidComponent("index.html");
    PathJoinRender(RootParts, "index.html");
    RenderSnoc(RootParts, "index.html");
  }

  /** `/` on the root directory holding `index.html` serves `/srv/static/index.html`. */
  lemma StaticIndex(size: nat)
    ensures var index := Render(RootParts + ["index.html"]);
            var fs := FileSystem(map[index := size], {Render(RootParts)});
            Locate(Render(RootParts), "/", fs) == Found(index, size)
  {
    var root, index := Render(RootParts), Render(RootParts + ["index.html"]);
    var fs := FileSystem(map[index := size], {root});
    CanonicalRootSlash();
    RootIndexCandidate();
    assert IndexPages[0] == "index.html";
    assert FirstIndex(root, IndexPages, fs) == Some(index);
  }


}
