/**
 * Route templates (src/bhh.py, register_handler): a template such as
 * `/api/{id}/items` is compiled by replacing every `{name}` token, where
 * `name` is a run of `[a-zA-Z0-9_]`, with the capture group `([^/]*)`, and
 * the names are collected in order. The regular expression itself is kept
 * only as text here; its matching behaviour is given over the compiled
 * pieces in module Matcher.
 */
module Templates {

  import opened Options

  /** One piece of a compiled template: a literal character or a placeholder. */
  datatype Piece = Lit(c: char) | Cap(name: string)

  /** The characters of the class `[a-zA-Z0-9_]` allowed in a placeholder name. */
  predicate IsNameChar(ch: char)
  {
    'a' <= ch <= 'z' || 'A' <= ch <= 'Z' || '0' <= ch <= '9' || ch == '_'
  }

  predicate IsName(s: string)
  {
    forall i :: 0 <= i < |s| ==> IsNameChar(s[i])
  }

  /** Length of the longest prefix of `s` made of name characters. */
  function NameRun(s: string): (n: nat)
    ensures n <= |s| && IsName(s[..n])
    ensures n < |s| ==> !IsNameChar(s[n])
  {
    if s != [] && IsNameChar(s[0]) then
      var k := NameRun(s[1..]);
      assert s[..k + 1] == [s[0]] + s[1..][..k];
      1 + k
    else 0
  }

  /** `t` starts with the token `{name}` where `name` has length `n`. */
  predicate TokenOfLen(t: string, n: nat)
  {
    n + 2 <= |t| && t[0] == '{' && IsName(t[1..n + 1]) && t[n + 1] == '}'
  }

  /**
   * When `t` starts with a placeholder token `{name}`, the length of `name`.
   * The pattern `\{([a-zA-Z0-9_]*)\}` is greedy, and a name character is
   * never `}`, so at most one token starts at the head of `t`.
   */
  function PlaceholderLen(t: string): (r: Option<nat>)
    ensures r.Some? ==> TokenOfLen(t, r.value)
    ensures forall m: nat :: TokenOfLen(t, m) ==> r == Some(m)
  {
    if t != [] && t[0] == '{' then
      var n := NameRun(t[1..]);
      assert t[1..][..n] == t[1..n + 1];
      if 1 + n < |t| && t[1 + n] == '}' then
        assert forall m: nat :: TokenOfLen(t, m) ==> m == n;
        Some(n)
      else
        assert forall m: nat :: !TokenOfLen(t, m);
        None
    else None
  }

  /** The pieces of a template, scanned left to right as `re.sub` does. */
  function Compile(t: string): (p: seq<Piece>)
    ensures forall i :: 0 <= i < |p| && p[i].Cap? ==> IsName(p[i].name)
    decreases |t|
  {
    if t == [] then []
    else
      match PlaceholderLen(t)
      case Some(n) => [Cap(t[1..n + 1])] + Compile(t[n + 2..])
      case None => [Lit(t[0])] + Compile(t[1..])
  }

  /**
   * The placeholder names of a template, scanned as `re.findall` does: each
   * is a run of name characters, and each takes at least the two braces of
   * its token from the template.
   */
  function Variables(t: string): (r: seq<string>)
    ensures forall i :: 0 <= i < |r| ==> IsName(r[i])
    ensures 2 * |r| <= |t|
    decreases |t|
  {
    if t == [] then []
    else
      match PlaceholderLen(t)
      case Some(n) => [t[1..n + 1]] + Variables(t[n + 2..])
      case None => Variables(t[1..])
  }

  /** The names of the capturing pieces, in order. */
  function CapNames(p: seq<Piece>): seq<string>
  {
    if p == [] then []
    else if p[0].Cap? then [p[0].name] + CapNames(p[1..])
    else CapNames(p[1..])
  }

  function CapCount(p: seq<Piece>): nat
  {
    |CapNames(p)|
  }

  /** The variable list agrees, name by name, with the capturing pieces of the compiled matcher. */
  lemma {:induction false} VariablesAreCaptures(t: string)
    ensures Variables(t) == CapNames(Compile(t))
    ensures |Variables(t)| == CapCount(Compile(t))
    decreases |t|
  {
    if t != [] {
      var c := Compile(t);
      match PlaceholderLen(t)
      case Some(n) =>
        var rest := t[n + 2..];
        assert c == [Cap(t[1..n + 1])] + Compile(rest);
        assert c[0] == Cap(t[1..n + 1]) && c[1..] == Compile(rest);
        assert CapNames(c) == [t[1..n + 1]] + CapNames(c[1..]);
        assert Variables(t) == [t[1..n + 1]] + Variables(rest);
        VariablesAreCaptures(rest);
      case None =>
        assert c == [Lit(t[0])] + Compile(t[1..]);
        assert c[0] == Lit(t[0]) && c[1..] == Compile(t[1..]);
        assert CapNames(c) == CapNames(c[1..]);
        assert Variables(t) == Variables(t[1..]);
        VariablesAreCaptures(t[1..]);
    }
  }

  /** Writes pieces back as template text. */
  function Unparse(p: seq<Piece>): string
  {
    if p == [] then ""
    else
      match p[0]
      case Lit(c) => [c] + Unparse(p[1..])
      case Cap(name) => "{" + name + "}" + Unparse(p[1..])
  }

  lemma TokenSplit(t: string, n: nat)
    requires TokenOfLen(t, n)
    ensures t == "{" + t[1..n + 1] + "}" + t[n + 2..]
  {
    assert t == [t[0]] + t[1..n + 1] + [t[n + 1]] + t[n + 2..];
  }

  /** Compilation loses nothing: the template is recovered from its pieces. */
  lemma {:induction false} UnparseCompile(t: string)
    ensures Unparse(Compile(t)) == t
    decreases |t|
  {
    if t != [] {
      var c := Compile(t);
      match PlaceholderLen(t)
      case Some(n) =>
        var name, rest := t[1..n + 1], t[n + 2..];
        assert c == [Cap(name)] + Compile(rest);
        assert c[0] == Cap(name) && c[1..] == Compile(rest);
        assert Unparse(c) == "{" + name + "}" + Unparse(c[1..]);
        UnparseCompile(rest);
        TokenSplit(t, n);
      case None =>
        assert c == [Lit(t[0])] + Compile(t[1..]);
        assert c[0] == Lit(t[0]) && c[1..] == Compile(t[1..]);
        assert Unparse(c) == [t[0]] + Unparse(c[1..]);
        UnparseCompile(t[1..]);
        assert t == [t[0]] + t[1..];
    }
  }

  /**
   * Pieces in the form the scan produces them: every name is made of name
   * characters, and no literal starts a placeholder token in the text
   * written back from that piece on.
   */
  predicate NormalForm(p: seq<Piece>)
  {
    forall i :: 0 <= i < |p| ==> NormalAt(p, i)
  }

  predicate NormalAt(p: seq<Piece>, i: nat)
    requires i < |p|
  {
    match p[i]
    case Cap(name) => IsName(name)
    case Lit(_) => PlaceholderLen(Unparse(p[i..])).None?
  }

  lemma NormalFormCons(p: seq<Piece>)
    requires p != []
    ensures NormalForm(p) <==> NormalAt(p, 0) && NormalForm(p[1..])
  {
    forall i | 1 <= i < |p| ensures NormalAt(p, i) <==> NormalAt(p[1..], i - 1) {
      assert p[1..][i - 1] == p[i];
      assert p[1..][i - 1..] == p[i..];
    }
    if NormalAt(p, 0) && NormalForm(p[1..]) {
      forall i | 0 <= i < |p| ensures NormalAt(p, i) {
        if i > 0 {
          assert NormalAt(p[1..], i - 1);
        }
      }
    }
    if NormalForm(p) {
      forall j | 0 <= j < |p[1..]| ensures NormalAt(p[1..], j) {
        assert NormalAt(p, j + 1);
      }
    }
  }

  /** Every placeholder token of the template becomes a capture, and no literal could have started one. */
  lemma {:induction false} CompileNormal(t: string)
    ensures NormalForm(Compile(t))
    decreases |t|
  {
    if t != [] {
      var c := Compile(t);
      match PlaceholderLen(t)
      case Some(n) =>
        assert c == [Cap(t[1..n + 1])] + Compile(t[n + 2..]);
        assert c[1..] == Compile(t[n + 2..]);
        CompileNormal(t[n + 2..]);
        NormalFormCons(c);
      case None =>
        assert c == [Lit(t[0])] + Compile(t[1..]);
        assert c[1..] == Compile(t[1..]);
        CompileNormal(t[1..]);
        UnparseCompile(t);
        assert c[0..] == c;
        NormalFormCons(c);
    }
  }

  /**
   * Pieces in normal form are recovered by compiling their text: the scan
   * is the only normal-form reading of a template, and the variable list
   * of that text is the list of capture names.
   */
  lemma {:induction false} CompileUnparse(p: seq<Piece>)
    requires NormalForm(p)
    ensures Compile(Unparse(p)) == p
    ensures Variables(Unparse(p)) == CapNames(p)
  {
    if p != [] {
      NormalFormCons(p);
      var t, u := Unparse(p), Unparse(p[1..]);
      CompileUnparse(p[1..]);
      match p[0]
      case Lit(c) =>
        assert t == [c] + u;
        assert p[0..] == p;
        assert PlaceholderLen(t).None?;
        assert t[1..] == u;
        assert Compile(t) == [Lit(c)] + Compile(u);
      case Cap(name) =>
        var n := |name|;
        assert t == "{" + name + "}" + u;
        assert t[1..n + 1] == name && t[n + 1] == '}' && t[n + 2..] == u;
        assert TokenOfLen(t, n);
        assert Compile(t) == [Cap(name)] + Compile(u);
    }
    VariablesAreCaptures(Unparse(p));
  }

  /** The replacement text `re.sub` puts in place of every placeholder. */
  const CaptureGroup: string := "([^/]*)"

  /** The compiled pieces as regular-expression text. */
  function Substitute(p: seq<Piece>): string
  {
    if p == [] then ""
    else
      match p[0]
      case Lit(c) => [c] + Substitute(p[1..])
      case Cap(_) => CaptureGroup + Substitute(p[1..])
  }

  /**
   * The source text of the compiled expression: `^`, the substituted
   * template, `/?$`. When no literal is a metacharacter it opens exactly one
   * group per name in the variable list, so `m.groups()` lines up with it.
   */
  function RegexSource(t: string): (r: string)
    ensures |r| >= 4 && r[0] == '^' && r[|r| - 3..] == "/?$"
    ensures PlainLiterals(Compile(t)) ==> CountOpen(r) == |Variables(t)|
  {
    var body := Substitute(Compile(t));
    SubstituteGroups(Compile(t));
    VariablesAreCaptures(t);
    CountOpenAppend("^", body);
    CountOpenAppend("^" + body, "/?$");
    assert CountOpen("^") == 0 && CountOpen("/?$") == 0;
    "^" + body + "/?$"
  }

  /** Characters with a meaning in a regular expression; the template is not escaped. */
  predicate IsMetachar(ch: char)
  {
    ch in ".^$*+?{}[]\\|()"
  }

  /** No literal piece is a regular-expression metacharacter. */
  predicate PlainLiterals(p: seq<Piece>)
  {
    forall i :: 0 <= i < |p| && p[i].Lit? ==> !IsMetachar(p[i].c)
  }

  /** Number of `(` in a string: in the compiled text these are exactly the groups. */
  function CountOpen(s: string): nat
  {
    if s == [] then 0 else (if s[0] == '(' then 1 else 0) + CountOpen(s[1..])
  }

  lemma {:induction false} CountOpenAppend(a: string, b: string)
    ensures CountOpen(a + b) == CountOpen(a) + CountOpen(b)
  {
    if a != [] {
      assert (a + b)[0] == a[0];
      assert (a + b)[1..] == a[1..] + b;
      CountOpenAppend(a[1..], b);
      assert CountOpen(a + b) == (if a[0] == '(' then 1 else 0) + CountOpen(a[1..] + b);
    } else {
      assert a + b == b;
    }
  }

  /** The replacement text opens exactly one group. */
  lemma CaptureGroupOpens()
    ensures CountOpen(CaptureGroup) == 1
  {
    assert CountOpen(")") == CountOpen("");
    assert CountOpen("*)") == CountOpen(")");
    assert CountOpen("]*)") == CountOpen("*)");
    assert CountOpen("/]*)") == CountOpen("]*)");
    assert CountOpen("^/]*)") == CountOpen("/]*)");
    assert CountOpen("[^/]*)") == CountOpen("^/]*)");
    assert CountOpen("([^/]*)") == 1 + CountOpen("[^/]*)");
  }

  lemma {:induction false} SubstituteGroups(p: seq<Piece>)
    ensures PlainLiterals(p) ==> CountOpen(Substitute(p)) == CapCount(p)
  {
    if p != [] && PlainLiterals(p) {
      assert PlainLiterals(p[1..]) by {
        forall i | 0 <= i < |p[1..]| && p[1..][i].Lit? ensures !IsMetachar(p[1..][i].c) {
          assert p[1..][i] == p[i + 1];
        }
      }
      SubstituteGroups(p[1..]);
      match p[0]
      case Lit(c) =>
        assert !IsMetachar(p[0].c);
        CountOpenAppend([c], Substitute(p[1..]));
      case Cap(_) =>
        CountOpenAppend(CaptureGroup, Substitute(p[1..]));
        CaptureGroupOpens();
    }
  }

}
