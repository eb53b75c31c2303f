/**
 * Lexical path canonicalisation, standing in for `os.path.realpath` on an
 * absolute path without symbolic links: the path is split at every `/`,
 * empty and `.` components are dropped, `..` removes the last kept
 * component (and stays at `/` when there is none), and the result is `/`
 * followed by the kept components joined with `/`.
 */
module Paths {

  /** Splits at every `/`, as `str.split("/")` does. */
  function Split(s: string): (r: seq<string>)
    ensures |r| >= 1
  {
    if s == [] then [""]
    else
      var rest := Split(s[1..]);
      if s[0] == '/' then [""] + rest
      else [[s[0]] + rest[0]] + rest[1..]
  }

  /** No component of a split holds a `/`. */
  lemma {:induction false} SplitNoSlash(s: string)
    ensures forall i :: 0 <= i < |Split(s)| ==> '/' !in Split(s)[i]
  {
    if s != [] {
      SplitNoSlash(s[1..]);
      var rest := Split(s[1..]);
      if s[0] != '/' {
        assert '/' !in rest[0];
        assert '/' !in [s[0]] + rest[0];
        assert forall i :: 1 <= i < |Split(s)| ==> Split(s)[i] == rest[i];
      } else {
        assert forall i :: 1 <= i < |Split(s)| ==> Split(s)[i] == rest[i - 1];
      }
    }
  }

  /** Joins components with `/` between them, as `"/".join(cs)` does. */
  function JoinSlash(cs: seq<string>): string
  {
    if cs == [] then ""
    else if |cs| == 1 then cs[0]
    else cs[0] + "/" + JoinSlash(cs[1..])
  }

  /** Splitting and joining again gives back the string. */
  lemma {:induction false} JoinSplit(s: string)
    ensures JoinSlash(Split(s)) == s
  {
    if s != [] {
      var rest := Split(s[1..]);
      JoinSplit(s[1..]);
      if s[0] == '/' {
        assert Split(s)[1..] == rest;
        assert s == "/" + s[1..];
      } else if |rest| == 1 {
        assert s == [s[0]] + s[1..];
      } else {
        assert Split(s)[1..] == rest[1..];
        assert JoinSlash(rest) == rest[0] + "/" + JoinSlash(rest[1..]);
        assert s == [s[0]] + s[1..];
      }
    }
  }

  /** Joining components free of `/` and splitting again gives back the components. */
  lemma {:induction false} SplitJoin(cs: seq<string>)
    requires cs != [] && forall i :: 0 <= i < |cs| ==> '/' !in cs[i]
    ensures Split(JoinSlash(cs)) == cs
  {
    SplitPlain(cs[0]);
    if |cs| > 1 {
      SplitJoin(cs[1..]);
      SplitAppend(cs[0], JoinSlash(cs[1..]));
    }
  }

  lemma {:induction false} SplitPlain(c: string)
    requires '/' !in c
    ensures Split(c) == [c]
  {
    if c != [] {
      SplitPlain(c[1..]);
      assert c == [c[0]] + c[1..];
    }
  }

  /** Splitting at a `/` splits the parts on either side independently. */
  lemma {:induction false} SplitAppend(a: string, b: string)
    ensures Split(a + "/" + b) == Split(a) + Split(b)
    decreases |a|, 1
  {
    if a == [] {
      assert a + "/" + b == "/" + b;
      assert ("/" + b)[1..] == b;
    } else if a[0] == '/' {
      SplitAppendSlash(a, b);
    } else {
      SplitAppendChar(a, b);
    }
  }

  lemma {:induction false} SplitAppendSlash(a: string, b: string)
    requires a != [] && a[0] == '/'
    ensures Split(a + "/" + b) == Split(a) + Split(b)
    decreases |a|, 0
  {
    var s := a + "/" + b;
    assert s[0] == '/' && s[1..] == a[1..] + "/" + b;
    SplitAppend(a[1..], b);
    var r, sb := Split(a[1..]), Split(b);
    assert Split(s) == [""] + (r + sb);
    assert Split(a) == [""] + r;
    assert [""] + (r + sb) == ([""] + r) + sb;
  }

  lemma {:induction false} SplitAppendChar(a: string, b: string)
    requires a != [] && a[0] != '/'
    ensures Split(a + "/" + b) == Split(a) + Split(b)
    decreases |a|, 0
  {
    var s := a + "/" + b;
    assert s[0] == a[0] && s[1..] == a[1..] + "/" + b;
    SplitAppend(a[1..], b);
    SplitCons(s);
    SplitCons(a);
    ConsAppend([a[0]], Split(a[1..]), Split(b));
  }

  /** The split of a string that starts with a character other than `/`. */
  lemma SplitCons(s: string)
    requires s != [] && s[0] != '/'
    ensures Split(s) == [[s[0]] + Split(s[1..])[0]] + Split(s[1..])[1..]
  {
  }

  /** Gluing a prefix onto the first component commutes with appending components. */
  lemma ConsAppend(c: string, r: seq<string>, t: seq<string>)
    requires r != []
    ensures [c + (r + t)[0]] + (r + t)[1..] == ([c + r[0]] + r[1..]) + t
  {
    assert (r + t)[0] == r[0];
    assert (r + t)[1..] == r[1..] + t;
  }

  /** A component that canonicalisation keeps. */
  predicate ValidComponent(c: string)
  {
    c != "" && c != "." && c != ".." && '/' !in c
  }

  predicate ValidComponents(cs: seq<string>)
  {
    forall i :: 0 <= i < |cs| ==> ValidComponent(cs[i])
  }

  /** One step of the walk over the components of a path. */
  function Step(stack: seq<string>, name: string): seq<string>
  {
    if name == "" || name == "." then stack
    else if name == ".." then (if stack == [] then [] else stack[..|stack| - 1])
    else stack + [name]
  }

  /** The components kept after walking `names` from the directory `stack`. */
  function Resolve(stack: seq<string>, names: seq<string>): seq<string>
    decreases |names|
  {
    if names == [] then stack else Resolve(Step(stack, names[0]), names[1..])
  }

  /** The absolute path of a list of components. */
  function Render(cs: seq<string>): string
  {
    "/" + JoinSlash(cs)
  }

  /** A path in canonical form: `/` followed by components none of which is empty, `.` or `..`. */
  ghost predicate IsCanonical(q: string)
  {
    exists cs :: ValidComponents(cs) && q == Render(cs)
  }

  /** The canonical form of an absolute path. */
  function Canonical(p: string): (r: string)
    ensures IsCanonical(r)
  {
    var cs := Resolve([], Split(p));
    SplitNoSlash(p);
    ResolveValid([], Split(p));
    Render(cs)
  }

  lemma {:induction false} ResolveAppend(st: seq<string>, a: seq<string>, b: seq<string>)
    ensures Resolve(st, a + b) == Resolve(Resolve(st, a), b)
    decreases |a|
  {
    if a == [] {
      assert a + b == b;
    } else {
      assert (a + b)[0] == a[0];
      assert (a + b)[1..] == a[1..] + b;
      ResolveAppend(Step(st, a[0]), a[1..], b);
    }
  }

  /** The walk only ever keeps valid components. */
  lemma {:induction false} ResolveValid(st: seq<string>, names: seq<string>)
    requires ValidComponents(st)
    requires forall i :: 0 <= i < |names| ==> '/' !in names[i]
    ensures ValidComponents(Resolve(st, names))
    decreases |names|
  {
    if names != [] {
      var next := Step(st, names[0]);
      assert ValidComponents(next) by {
        if names[0] != "" && names[0] != "." && names[0] != ".." {
          assert next == st + [names[0]];
        } else if names[0] == ".." && st != [] {
          assert forall i :: 0 <= i < |next| ==> next[i] == st[i];
        }
      }
      ResolveValid(next, names[1..]);
    }
  }

  /** Valid components are kept as they are. */
  lemma {:induction false} ResolvePlain(st: seq<string>, cs: seq<string>)
    requires ValidComponents(cs)
    ensures Resolve(st, cs) == st + cs
    decreases |cs|
  {
    if cs == [] {
      assert st + cs == st;
    } else {
      assert ValidComponent(cs[0]);
      ResolvePlain(st + [cs[0]], cs[1..]);
      assert st + [cs[0]] + cs[1..] == st + cs;
    }
  }

  /** Walking the components of a rendered path from `st` appends them. */
  lemma ResolveRender(st: seq<string>, cs: seq<string>)
    requires ValidComponents(cs)
    ensures Resolve(st, Split(Render(cs))) == st + cs
  {
    assert Render(cs) == "" + "/" + JoinSlash(cs);
    SplitAppend("", JoinSlash(cs));
    if cs == [] {
      assert Split(Render(cs)) == ["", ""];
      assert ["", ""][1..] == [""] && [""][1..] == [];
      assert Resolve(st, ["", ""]) == Resolve(st, [""]) == Resolve(st, []) == st;
      assert st + cs == st;
    } else {
      SplitJoin(cs);
      assert Split(Render(cs)) == [""] + cs;
      assert ([""] + cs)[1..] == cs;
      ResolvePlain(st, cs);
    }
  }

  /** A rendered list of valid components is already canonical. */
  lemma CanonicalRender(cs: seq<string>)
    requires ValidComponents(cs)
    ensures Canonical(Render(cs)) == Render(cs)
  {
    ResolveRender([], cs);
    assert [] + cs == cs;
  }

  /** Canonicalising twice changes nothing. */
  lemma CanonicalIdempotent(p: string)
    ensures Canonical(Canonical(p)) == Canonical(p)
  {
    SplitNoSlash(p);
    ResolveValid([], Split(p));
    CanonicalRender(Resolve([], Split(p)));
  }

  /**
   * `os.path.join(dir, name)` for a relative `name`: `dir`, then `name`,
   * with a `/` in front of `name` unless `dir` is empty, added only when
   * `dir` does not already end in one.
   */
  function PathJoin(dir: string, name: string): (r: string)
    ensures |dir| + |name| <= |r| <= |dir| + 1 + |name|
    ensures r[..|dir|] == dir && r[|r| - |name|..] == name
    ensures dir != [] ==> r[|r| - |name| - 1] == '/'
    ensures |r| == |dir| + |name| <==> dir == [] || dir[|dir| - 1] == '/'
  {
    if dir == [] || dir[|dir| - 1] == '/' then dir + name else dir + "/" + name
  }

  lemma {:induction false} JoinAppend(a: seq<string>, b: seq<string>)
    requires a != [] && b != []
    ensures JoinSlash(a + b) == JoinSlash(a) + "/" + JoinSlash(b)
    decreases |a|
  {
    if |a| == 1 {
      assert (a + b)[1..] == b;
    } else {
      assert (a + b)[1..] == a[1..] + b;
      JoinAppend(a[1..], b);
    }
  }

  /** Rendering one more component adds `/` and the component (no `/` after the root). */
  lemma RenderSnoc(cs: seq<string>, name: string)
    ensures Render(cs + [name]) == (if cs == [] then "/" else Render(cs) + "/") + name
  {
    if cs == [] {
      assert cs + [name] == [name];
    } else {
      JoinAppend(cs, [name]);
    }
  }

  /** The rendered path of valid components ends in `/` only when it is the root. */
  lemma {:induction false} RenderLast(cs: seq<string>)
    requires ValidComponents(cs) && cs != []
    ensures |Render(cs)| > 1 && Render(cs)[|Render(cs)| - 1] != '/'
    decreases |cs|
  {
    if |cs| == 1 {
      assert cs[0][|cs[0]| - 1] in cs[0];
    } else {
      RenderLast(cs[1..]);
      assert JoinSlash(cs) == cs[0] + "/" + JoinSlash(cs[1..]);
    }
  }

  /** Joining a valid name onto a canonical directory gives the canonical child path. */
  lemma PathJoinRender(cs: seq<string>, name: string)
    requires ValidComponents(cs) && ValidComponent(name)
    ensures PathJoin(Render(cs), name) == Render(cs + [name])
    ensures Canonical(PathJoin(Render(cs), name)) == PathJoin(Render(cs), name)
  {
    RenderSnoc(cs, name);
    if cs != [] {
      RenderLast(cs);
    }
    assert ValidComponents(cs + [name]) by {
      forall i | 0 <= i < |cs + [name]| ensures ValidComponent((cs + [name])[i]) {
        if i < |cs| { assert (cs + [name])[i] == cs[i]; }
      }
    }
    CanonicalRender(cs + [name]);
  }

  /** Joining a single component onto a canonical directory leaves nothing for canonicalisation to do. */
  lemma PathJoinCanonical(dir: string, name: string)
    ensures ValidComponent(name) && IsCanonical(dir) ==> Canonical(PathJoin(dir, name)) == PathJoin(dir, name)
  {
    if ValidComponent(name) && IsCanonical(dir) {
      var cs :| ValidComponents(cs) && dir == Render(cs);
      PathJoinRender(cs, name);
    }
  }

  /** Rendering more components extends the rendered path. */
  lemma RenderPrefix(cs: seq<string>, more: seq<string>)
    ensures Render(cs) <= Render(cs + more)
  {
    if more == [] {
      assert cs + more == cs;
    } else if cs == [] {
      assert cs + more == more;
    } else {
      JoinAppend(cs, more);
      assert Render(cs + more) == Render(cs) + ("/" + JoinSlash(more));
    }
  }

  /** A walk with no `..` only adds components. */
  lemma {:induction false} ResolveNoParent(st: seq<string>, names: seq<string>)
    requires forall i :: 0 <= i < |names| ==> names[i] != ".."
    ensures st <= Resolve(st, names)
    decreases |names|
  {
    if names != [] {
      ResolveNoParent(Step(st, names[0]), names[1..]);
    }
  }

  /** A path below a canonical directory canonicalises by walking from that directory. */
  lemma CanonicalBelow(cs: seq<string>, rel: string)
    requires ValidComponents(cs)
    ensures Canonical(Render(cs) + "/" + rel) == Render(Resolve(cs, Split(rel)))
  {
    SplitAppend(Render(cs), rel);
    ResolveAppend([], Split(Render(cs)), Split(rel));
    ResolveRender([], cs);
    assert [] + cs == cs;
  }

  /** `dir/..` canonicalises to the parent of `dir`. */
  lemma CanonicalUp(cs: seq<string>)
    requires ValidComponents(cs) && cs != []
    ensures Canonical(Render(cs) + "/..") == Render(cs[..|cs| - 1])
  {
    assert Render(cs) + "/.." == Render(cs) + "/" + "..";
    CanonicalBelow(cs, "..");
    SplitPlain("..");
    assert Resolve(cs, [".."]) == Resolve(Step(cs, ".."), []) == cs[..|cs| - 1];
  }

  /** `dir/../name` canonicalises to the sibling `name` of `dir`. */
  lemma CanonicalSibling(cs: seq<string>, name: string)
    requires ValidComponents(cs) && cs != [] && ValidComponent(name)
    ensures Canonical(Render(cs) + "/../" + name) == Render(cs[..|cs| - 1] + [name])
  {
    assert Render(cs) + "/../" + name == Render(cs) + "/" + (".." + "/" + name);
    CanonicalBelow(cs, ".." + "/" + name);
    SplitAppend("..", name);
    SplitPlain("..");
    SplitPlain(name);
    assert ["..", name][1..] == [name];
    assert Resolve(cs, ["..", name]) == Resolve(cs[..|cs| - 1], [name]) == Resolve(cs[..|cs| - 1] + [name], []);
  }

}
