/**
 * The compiled route expression `^<pieces>/?$` of src/bhh.py, matched the way
 * Python's backtracking engine does: a literal must equal the next
 * character, a capture `([^/]*)` first takes the longest run of non-`/`
 * characters and gives characters back one at a time until the rest of the
 * pattern matches, and the pattern ends in one optional `/` and the end of
 * the path. The captures come back in order, as `m.groups()` returns them.
 */
module Matcher {

  import opened Options
  import opened Templates

  /** Length of the longest prefix of `s` holding no `/`: what `[^/]*` takes first. */
  function SegmentLen(s: string): (n: nat)
    ensures n <= |s| && NoSlash(s[..n])
    ensures n < |s| ==> s[n] == '/'
  {
    if s != [] && s[0] != '/' then
      var k := SegmentLen(s[1..]);
      assert s[..k + 1] == [s[0]] + s[1..][..k];
      1 + k
    else 0
  }

  predicate NoSlash(x: string)
  {
    '/' !in x
  }

  /**
   * The captures of the first match the engine finds, or None when `s` is
   * rejected; like `m.groups()`, a match has one capture per placeholder.
   */
  function Match(p: seq<Piece>, s: string): (r: Option<seq<string>>)
    ensures r.Some? ==> |r.value| == CapCount(p)
    decreases |p|, |s| + 1
  {
    if p == [] then
      if s == "" || s == "/" then Some([]) else None
    else
      match p[0]
      case Lit(c) => if s != [] && s[0] == c then Match(p[1..], s[1..]) else None
      case Cap(_) => Backtrack(p[1..], s, SegmentLen(s))
  }

  /**
   * A capture that has taken `s[..n]`: try the rest, then shorter captures.
   * A result is a prefix of at most `n` characters followed by one capture
   * per placeholder of the rest (`BacktrackSound`, `BacktrackFinds` and
   * `BacktrackGreedy` say which prefix).
   */
  function Backtrack(rest: seq<Piece>, s: string, n: nat): (r: Option<seq<string>>)
    requires n <= |s|
    ensures r.Some? ==> |r.value| == 1 + CapCount(rest) && |r.value[0]| <= n && r.value[0] == s[..|r.value[0]|]
    decreases |rest| + 1, n
  {
    match Match(rest, s[n..])
    case Some(caps) => Some([s[..n]] + caps)
    case None => if n == 0 then None else Backtrack(rest, s, n - 1)
  }

  /** The path obtained by putting the captures into the template's placeholders. */
  function Fill(p: seq<Piece>, caps: seq<string>): string
    requires |caps| == CapCount(p)
  {
    if p == [] then ""
    else
      match p[0]
      case Lit(c) => [c] + Fill(p[1..], caps)
      case Cap(_) => caps[0] + Fill(p[1..], caps[1..])
  }

  /**
   * The declarative reading of the expression: one capture per placeholder,
   * none holding `/`, and the path is the filled template with at most one
   * `/` after it.
   */
  predicate Accepts(p: seq<Piece>, s: string, caps: seq<string>)
  {
    && |caps| == CapCount(p)
    && (forall i :: 0 <= i < |caps| ==> NoSlash(caps[i]))
    && (s == Fill(p, caps) || s == Fill(p, caps) + "/")
  }

  /** Whatever the engine returns is a genuine decomposition of the path. */
  lemma {:induction false} MatchSound(p: seq<Piece>, s: string)
    ensures Match(p, s).Some? ==> Accepts(p, s, Match(p, s).value)
    decreases |p|, |s| + 1
  {
    if p != [] && Match(p, s).Some? {
      var caps := Match(p, s).value;
      match p[0]
      case Lit(c) =>
        assert Match(p, s) == Match(p[1..], s[1..]);
        MatchSound(p[1..], s[1..]);
        AcceptsLitCons(p, s, caps);
      case Cap(_) =>
        assert Match(p, s) == Backtrack(p[1..], s, SegmentLen(s));
        BacktrackSound(p[1..], s, SegmentLen(s));
        AcceptsCapCons(p, s, caps);
    }
  }

  /** A literal that matches the head of the path extends an accepted decomposition of the rest. */
  lemma AcceptsLitCons(p: seq<Piece>, s: string, caps: seq<string>)
    requires p != [] && p[0].Lit? && s != [] && s[0] == p[0].c
    requires Accepts(p[1..], s[1..], caps)
    ensures Accepts(p, s, caps)
  {
    assert CapNames(p) == CapNames(p[1..]);
    var f := Fill(p[1..], caps);
    assert Fill(p, caps) == [s[0]] + f;
    assert s == [s[0]] + s[1..];
    if s[1..] != f {
      assert [s[0]] + (f + "/") == [s[0]] + f + "/";
    }
  }

  /** A `/`-free capture at the head of the path extends an accepted decomposition of the rest. */
  lemma AcceptsCapCons(p: seq<Piece>, s: string, caps: seq<string>)
    requires p != [] && p[0].Cap? && |caps| > 0
    requires |caps[0]| <= |s| && caps[0] == s[..|caps[0]|] && NoSlash(caps[0])
    requires Accepts(p[1..], s[|caps[0]|..], caps[1..])
    ensures Accepts(p, s, caps)
  {
    var c, f := caps[0], Fill(p[1..], caps[1..]);
    assert CapNames(p) == [p[0].name] + CapNames(p[1..]);
    forall i | 0 <= i < |caps| ensures NoSlash(caps[i]) {
      if i > 0 {
        assert caps[i] == caps[1..][i - 1];
      }
    }
    assert Fill(p, caps) == c + f;
    assert s == c + s[|c|..];
    if s[|c|..] != f {
      assert c + (f + "/") == c + f + "/";
    }
  }

  lemma {:induction false} BacktrackSound(rest: seq<Piece>, s: string, n: nat)
    requires n <= SegmentLen(s)
    ensures Backtrack(rest, s, n).Some? ==>
              var caps := Backtrack(rest, s, n).value;
              && |caps| > 0 && |caps[0]| <= n && caps[0] == s[..|caps[0]|]
              && NoSlash(caps[0]) && Accepts(rest, s[|caps[0]|..], caps[1..])
    decreases |rest| + 1, n
  {
    assert s[..n] == s[..SegmentLen(s)][..n];
    MatchSound(rest, s[n..]);
    if Match(rest, s[n..]).None? && n > 0 {
      BacktrackSound(rest, s, n - 1);
    }
  }

  /** A path that the declarative reading accepts is accepted by the engine. */
  lemma {:induction false} MatchComplete(p: seq<Piece>, s: string, caps: seq<string>)
    requires Accepts(p, s, caps)
    ensures Match(p, s).Some?
    decreases |p|
  {
    if p != [] {
      match p[0]
      case Lit(c) =>
        assert Fill(p, caps) == [c] + Fill(p[1..], caps);
        assert s[1..] == Fill(p[1..], caps) || s[1..] == Fill(p[1..], caps) + "/";
        MatchComplete(p[1..], s[1..], caps);
      case Cap(_) =>
        var c0 := caps[0];
        assert Fill(p, caps) == c0 + Fill(p[1..], caps[1..]);
        var rest := s[|c0|..];
        assert s[..|c0|] == c0;
        assert rest == Fill(p[1..], caps[1..]) || rest == Fill(p[1..], caps[1..]) + "/";
        assert NoSlash(caps[0]);
        assert forall i :: 0 <= i < |caps[1..]| ==> NoSlash(caps[1..][i]) by {
          forall i | 0 <= i < |caps[1..]| ensures NoSlash(caps[1..][i]) {
            assert caps[1..][i] == caps[i + 1];
          }
        }
        MatchComplete(p[1..], rest, caps[1..]);
        BacktrackFinds(p[1..], s, SegmentLen(s), |c0|);
    }
  }

  /** Backtracking from `n` down reaches every shorter capture length that works. */
  lemma {:induction false} BacktrackFinds(rest: seq<Piece>, s: string, n: nat, m: nat)
    requires m <= n <= |s|
    requires Match(rest, s[m..]).Some?
    ensures Backtrack(rest, s, n).Some?
    decreases n
  {
    if n > m && Match(rest, s[n..]).None? {
      BacktrackFinds(rest, s, n - 1, m);
    }
  }

  /** The engine accepts a path exactly when the declarative reading does. */
  lemma MatchIff(p: seq<Piece>, s: string)
    ensures Match(p, s).Some? <==> exists caps :: Accepts(p, s, caps)
  {
    MatchSound(p, s);
    if exists caps :: Accepts(p, s, caps) {
      var caps :| Accepts(p, s, caps);
      MatchComplete(p, s, caps);
    }
  }

  /**
   * Greedy choice: a capture at the head of the pattern is the longest
   * `/`-free prefix for which the rest of the pattern still matches.
   */
  lemma {:induction false} BacktrackGreedy(rest: seq<Piece>, s: string, n: nat)
    requires n <= |s|
    ensures Backtrack(rest, s, n).Some? ==>
              var caps := Backtrack(rest, s, n).value;
              |caps| > 0 && |caps[0]| <= n &&
              forall m :: |caps[0]| < m <= n ==> Match(rest, s[m..]).None?
    decreases n
  {
    if Match(rest, s[n..]).None? && n > 0 {
      BacktrackGreedy(rest, s, n - 1);
    }
  }

  /** Every placeholder is followed by a `/` literal or ends the template. */
  predicate SegmentTemplate(p: seq<Piece>)
  {
    forall i :: 0 <= i < |p| && p[i].Cap? ==> i + 1 == |p| || p[i + 1] == Lit('/')
  }

  lemma {:induction false} SegmentLenAtSlash(a: string, x: string)
    requires NoSlash(a)
    ensures SegmentLen(a + "/" + x) == |a|
  {
    if a == [] {
      assert a + "/" + x == "/" + x;
    } else {
      assert (a + "/" + x)[0] == a[0];
      assert (a + "/" + x)[1..] == a[1..] + "/" + x;
      SegmentLenAtSlash(a[1..], x);
    }
  }

  /** A path splits uniquely at its first `/`. */
  lemma SlashSplit(a: string, x: string, b: string, y: string)
    requires NoSlash(a) && NoSlash(b)
    requires a + "/" + x == b + "/" + y
    ensures a == b && x == y
  {
    SegmentLenAtSlash(a, x);
    SegmentLenAtSlash(b, y);
    assert a == (a + "/" + x)[..|a|];
    assert b == (b + "/" + y)[..|b|];
    assert x == (a + "/" + x)[|a| + 1..];
    assert y == (b + "/" + y)[|b| + 1..];
  }

  lemma SegmentTemplateTail(p: seq<Piece>, k: nat)
    requires SegmentTemplate(p) && k <= |p|
    ensures SegmentTemplate(p[k..])
  {
    forall i | 0 <= i < |p[k..]| && p[k..][i].Cap? ensures i + 1 == |p[k..]| || p[k..][i + 1] == Lit('/') {
      assert p[k..][i] == p[i + k];
    }
  }

  lemma NoSlashTail(caps: seq<string>)
    requires |caps| > 0 && forall i :: 0 <= i < |caps| ==> NoSlash(caps[i])
    ensures forall i :: 0 <= i < |caps[1..]| ==> NoSlash(caps[1..][i])
  {
    forall i | 0 <= i < |caps[1..]| ensures NoSlash(caps[1..][i]) {
      assert caps[1..][i] == caps[i + 1];
    }
  }

  /** Accepting past a leading literal. */
  lemma AcceptsLit(p: seq<Piece>, s: string, caps: seq<string>)
    requires p != [] && p[0].Lit? && Accepts(p, s, caps)
    ensures s != [] && s[0] == p[0].c && Accepts(p[1..], s[1..], caps)
  {
    var c := p[0].c;
    assert CapNames(p) == CapNames(p[1..]);
    var f := Fill(p[1..], caps);
    assert Fill(p, caps) == [c] + f;
    if s == [c] + f {
      assert s[1..] == f;
    } else {
      assert s == [c] + (f + "/");
      assert s[1..] == f + "/";
    }
  }

  /** Accepting past a placeholder and the `/` after it. */
  lemma AcceptsCapSlash(p: seq<Piece>, s: string, caps: seq<string>) returns (x: string)
    requires |p| > 1 && p[0].Cap? && p[1] == Lit('/') && Accepts(p, s, caps)
    ensures |caps| > 0 && s == caps[0] + "/" + x && Accepts(p[2..], x, caps[1..])
  {
    var q := p[2..];
    assert p[1..][1..] == q;
    assert p[1..][0] == Lit('/');
    assert CapNames(p[1..]) == CapNames(q);
    assert Fill(p, caps) == caps[0] + ("/" + Fill(q, caps[1..]));
    x := if s == Fill(p, caps) then Fill(q, caps[1..]) else Fill(q, caps[1..]) + "/";
    NoSlashTail(caps);
  }

  /** Accepting with a placeholder that ends the template. */
  lemma AcceptsLastCap(p: seq<Piece>, s: string, caps: seq<string>)
    requires |p| == 1 && p[0].Cap? && Accepts(p, s, caps)
    ensures caps == [if s != [] && s[|s| - 1] == '/' then s[..|s| - 1] else s]
  {
    assert Fill(p, caps) == caps[0] + Fill(p[1..], caps[1..]) == caps[0];
    if s != [] && s[|s| - 1] == '/' {
      assert s == caps[0] + "/";
    } else {
      assert s != caps[0] + "/";
    }
  }

  /**
   * For a template whose placeholders each take a whole path segment, the
   * captures of an accepted path are determined by the path.
   */
  lemma {:induction false} SegmentCapturesUnique(p: seq<Piece>, s: string, c1: seq<string>, c2: seq<string>)
    requires SegmentTemplate(p)
    requires Accepts(p, s, c1) && Accepts(p, s, c2)
    ensures c1 == c2
    decreases |p|
  {
    if p == [] {
    } else if p[0].Lit? {
      AcceptsLit(p, s, c1);
      AcceptsLit(p, s, c2);
      SegmentTemplateTail(p, 1);
      SegmentCapturesUnique(p[1..], s[1..], c1, c2);
    } else if |p| == 1 {
      AcceptsLastCap(p, s, c1);
      AcceptsLastCap(p, s, c2);
    } else {
      assert p[1] == Lit('/');
      var x1 := AcceptsCapSlash(p, s, c1);
      var x2 := AcceptsCapSlash(p, s, c2);
      SlashSplit(c1[0], x1, c2[0], x2);
      SegmentTemplateTail(p, 2);
      SegmentCapturesUnique(p[2..], x1, c1[1..], c2[1..]);
      assert c1 == [c1[0]] + c1[1..];
      assert c2 == [c2[0]] + c2[1..];
    }
  }

  /** On a segment template the engine returns exactly the captures the path determines. */
  lemma MatchSegments(p: seq<Piece>, s: string, caps: seq<string>)
    requires SegmentTemplate(p) && Accepts(p, s, caps)
    ensures Match(p, s) == Some(caps)
  {
    MatchComplete(p, s, caps);
    MatchSound(p, s);
    SegmentCapturesUnique(p, s, caps, Match(p, s).value);
  }

}
