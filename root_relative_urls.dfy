/** The string side of root-relative URL absolutisation in
    `HtmlResponseSubscriber::transformRootRelativeUrlsToAbsolute`: which
    values count as root-relative, the rewrite of one attribute, the
    per-candidate rewrite of `srcset` (the image candidate strings of the
    WHATWG HTML Living Standard, section 4.8.4.2), and the nine rounds the
    source runs over one element's attributes. */
module RootRelativeUrls {
  import opened PhpStrings

  /** A root-relative URL: one leading slash, not the double slash of a
      protocol-relative URL. A lone slash is root-relative. */
  predicate IsRootRelative(v: string) {
    |v| >= 1 && v[0] == '/' && (|v| == 1 || v[1] != '/')
  }

  /** The XPath test of the first inner loop: the value starts with one
      slash and not with two; an absent attribute reads as the empty string. */
  function XPathSelectsRootRelative(v: string): (r: bool)
    ensures r <==> IsRootRelative(v)
  {
    StartsWith(v, "/") && !StartsWith(v, "//")
  }

  /** The candidate test of the `srcset` loop: offset 0 is a slash and
      offset 1 is not; an offset past the end of the candidate reads as "". */
  function CandidateIsRootRelative(c: string): (r: bool)
    ensures r <==> IsRootRelative(c)
  {
    Offset(c, 0) == "/" && Offset(c, 1) != "/"
  }

  /** `getAttribute`: the value, or "" when the attribute is absent. */
  function GetAttr(m: map<string, string>, name: string): string {
    if name in m then m[name] else []
  }

  /** The URL-bearing attributes, in the order the source visits them. */
  const UriAttributes: seq<string> :=
    ["href", "poster", "src", "cite", "data", "action", "formaction", "srcset", "about"]

  /** Scheme-and-host strings under which rewriting is stable: no comma (it
      would split a `srcset` candidate), no leading trim character (it would
      be trimmed away from a candidate), and not itself root-relative. */
  predicate SafeHost(host: string) {
    ',' !in host && (host == [] || (!IsTrimChar(host[0]) && !IsRootRelative(host)))
  }

  /** A value that is not root-relative stays so whatever is appended. */
  lemma NotRootRelativeExtends(x: string, y: string)
    requires x != [] && !IsRootRelative(x)
    ensures !IsRootRelative(x + y)
  {
    assert (x + y)[0] == x[0];
    if |x| >= 2 {
      assert (x + y)[1] == x[1];
    }
  }

  /** A lone slash is rewritten; the empty value, a protocol-relative URL,
      an absolute URL and a document-relative path are not. An empty
      `srcset` candidate passes through unchanged. */
  lemma RootRelativeExamples(host: string)
    ensures XPathSelectsRootRelative("/") && CandidateIsRootRelative("/")
    ensures !XPathSelectsRootRelative("") && !XPathSelectsRootRelative("//x")
    ensures !XPathSelectsRootRelative("http://x") && !XPathSelectsRootRelative("rel/x")
    ensures RewriteCandidate("", host) == "" && RewriteCandidate("/", host) == host + "/"
  {
    assert "//x"[1] == '/';
    assert "http://x"[0] == 'h' && "rel/x"[0] == 'r';
  }

  // ---------------------------------------------------------------- srcset

  /** One image candidate after the rewrite loop body. */
  function RewriteCandidate(c: string, host: string): string {
    if CandidateIsRootRelative(c) then host + c else c
  }

  function TrimAll(cs: seq<string>): (r: seq<string>)
    ensures |r| == |cs|
  {
    seq(|cs|, i requires 0 <= i < |cs| => Trim(cs[i]))
  }

  function RewriteCandidates(cs: seq<string>, host: string): (r: seq<string>)
    ensures |r| == |cs|
  {
    seq(|cs|, i requires 0 <= i < |cs| => RewriteCandidate(cs[i], host))
  }

  /** The trimmed image candidates of a `srcset` value, split on `,`. */
  function Candidates(v: string): (r: seq<string>)
    ensures |r| >= 1
    ensures forall i :: 0 <= i < |r| ==> IsTrimmed(r[i]) && ',' !in r[i]
  {
    var pieces := Explode(',', v);
    var r := TrimAll(pieces);
    assert forall i :: 0 <= i < |r| ==> ',' !in r[i] by {
      forall i | 0 <= i < |r| ensures ',' !in r[i] {
        TrimKeepsOut(pieces[i], ',');
      }
    }
    r
  }

  /** The new `srcset` value the source computes for value `v`. */
  function SrcsetRewritten(v: string, host: string): string {
    Implode(", ", RewriteCandidates(Candidates(v), host))
  }

  /** Rewriting one candidate twice is rewriting it once. */
  lemma RewriteCandidateIdempotent(c: string, host: string)
    requires SafeHost(host)
    ensures RewriteCandidate(RewriteCandidate(c, host), host) == RewriteCandidate(c, host)
  {
    if IsRootRelative(c) && host != [] {
      NotRootRelativeExtends(host, c);
    }
  }

  /** Every piece but the first with `p` in front. */
  function Prefixed(p: string, cs: seq<string>): (r: seq<string>)
    requires |cs| >= 1
    ensures |r| == |cs| && r[0] == cs[0]
    ensures forall i :: 1 <= i < |cs| ==> r[i] == p + cs[i]
  {
    [cs[0]] + seq(|cs| - 1, i requires 0 <= i < |cs| - 1 => p + cs[i + 1])
  }

  /** A join with glue `a + b` is a join with glue `a` of the pieces with
      `b` put in front of all but the first. */
  lemma {:induction false} SplitGlueJoin(a: string, b: string, cs: seq<string>)
    requires |cs| >= 1
    ensures Implode(a + b, cs) == Implode(a, Prefixed(b, cs))
  {
    if |cs| >= 2 {
      var rest := Implode(a + b, cs[1..]);
      SplitGlueJoin(a, b, cs[1..]);
      var sp := Prefixed(b, cs[1..]);
      assert rest == Implode(a, sp);
      var all := Prefixed(b, cs);
      var t := all[1..];
      assert t == [b + sp[0]] + sp[1..];
      assert sp == [sp[0]] + sp[1..];
      ImplodeConsHead(a, b, sp[0], sp[1..]);
      assert Implode(a, t) == b + rest;
      assert Implode(a, all) == cs[0] + a + Implode(a, t);
      assert Implode(a + b, cs) == cs[0] + (a + b) + rest;
      assert cs[0] + a + (b + rest) == cs[0] + (a + b) + rest;
    }
  }

  /** `", "` joins are `","` joins of space-prefixed pieces. */
  lemma CommaSpaceJoin(cs: seq<string>)
    requires |cs| >= 1
    ensures Implode(", ", cs) == Implode(",", Prefixed(" ", cs))
  {
    assert ", " == "," + " ";
    SplitGlueJoin(",", " ", cs);
  }

  /** Splitting and trimming a `", "` join of trimmed, comma-free candidates
      gives the candidates back. */
  lemma SpacePrefixedCommaFree(cs: seq<string>)
    requires |cs| >= 1
    requires forall i :: 0 <= i < |cs| ==> ',' !in cs[i]
    ensures forall i :: 0 <= i < |cs| ==> ',' !in Prefixed(" ", cs)[i]
  {
    var sp := Prefixed(" ", cs);
    forall i | 0 <= i < |sp| ensures ',' !in sp[i] {
      if i > 0 {
        assert sp[i] == " " + cs[i];
      }
    }
  }

  lemma TrimSpaced(c: string)
    requires IsTrimmed(c)
    ensures Trim(" " + c) == c
  {
    TrimDropsLeadingTrimChars(" ", c);
    TrimOfTrimmed(c);
  }

  lemma TrimSpacePrefixed(cs: seq<string>)
    requires |cs| >= 1
    requires forall i :: 0 <= i < |cs| ==> IsTrimmed(cs[i])
    ensures TrimAll(Prefixed(" ", cs)) == cs
  {
    var sp := Prefixed(" ", cs);
    var r := TrimAll(sp);
    forall i | 0 <= i < |cs| ensures r[i] == cs[i] {
      if i == 0 {
        TrimOfTrimmed(cs[0]);
      } else {
        TrimSpaced(cs[i]);
      }
    }
  }

  lemma CandidatesOfJoin(cs: seq<string>)
    requires |cs| >= 1
    requires forall i :: 0 <= i < |cs| ==> IsTrimmed(cs[i]) && ',' !in cs[i]
    ensures Candidates(Implode(", ", cs)) == cs
  {
    var sp := Prefixed(" ", cs);
    CommaSpaceJoin(cs);
    SpacePrefixedCommaFree(cs);
    ExplodeImplode(',', sp);
    TrimSpacePrefixed(cs);
  }

  /** Re-splitting a rewritten `srcset` value recovers exactly the rewritten
      candidates: the descriptors after each URL stay where they were and
      only the `", "` separators are normalised. */
  lemma CandidatesOfRewritten(v: string, host: string)
    requires SafeHost(host)
    ensures Candidates(SrcsetRewritten(v, host)) == RewriteCandidates(Candidates(v), host)
  {
    var cs := RewriteCandidates(Candidates(v), host);
    forall i | 0 <= i < |cs| ensures IsTrimmed(cs[i]) && ',' !in cs[i] {
      var c := Candidates(v)[i];
      if CandidateIsRootRelative(c) && host != [] {
        assert cs[i] == host + c;
        assert cs[i][0] == host[0];
        assert cs[i][|cs[i]| - 1] == c[|c| - 1];
      }
    }
    CandidatesOfJoin(cs);
  }

  /** The `srcset` rewrite is idempotent. */
  lemma SrcsetIdempotent(v: string, host: string)
    requires SafeHost(host)
    ensures SrcsetRewritten(SrcsetRewritten(v, host), host) == SrcsetRewritten(v, host)
  {
    var cs := Candidates(v);
    CandidatesOfRewritten(v, host);
    forall i | 0 <= i < |cs|
      ensures RewriteCandidates(RewriteCandidates(cs, host), host)[i] == RewriteCandidates(cs, host)[i]
    {
      RewriteCandidateIdempotent(cs[i], host);
    }
    assert RewriteCandidates(RewriteCandidates(cs, host), host) == RewriteCandidates(cs, host);
  }

  /** `f` applied `k` times. */
  function Iterate(f: string -> string, v: string, k: nat): string {
    if k == 0 then v else f(Iterate(f, v, k - 1))
  }

  /** Repeating an idempotent step is doing it once. */
  lemma {:induction false} IterateIdempotent(f: string -> string, v: string, k: nat)
    requires forall x :: f(f(x)) == f(x)
    requires k >= 1
    ensures Iterate(f, v, k) == f(v)
  {
    if k > 1 {
      IterateIdempotent(f, v, k - 1);
    }
  }

  /** The `srcset` rewrite as a step to iterate. */
  function SrcsetPass(host: string): string -> string {
    v => SrcsetRewritten(v, host)
  }

  /** Running the `srcset` pass k >= 1 times equals running it once. */
  lemma SrcsetRepeated(v: string, host: string, k: nat)
    requires SafeHost(host) && k >= 1
    ensures Iterate(SrcsetPass(host), v, k) == SrcsetRewritten(v, host)
  {
    var f := SrcsetPass(host);
    forall x ensures f(f(x)) == f(x) {
      SrcsetIdempotent(x, host);
    }
    IterateIdempotent(f, v, k);
  }

  /** A rewritten `srcset` value is never itself root-relative (unless the
      host is empty, where rewriting changes nothing). */
  lemma SrcsetRewrittenNotRootRelative(v: string, host: string)
    requires SafeHost(host) && host != []
    ensures !IsRootRelative(SrcsetRewritten(v, host))
  {
    var cs := RewriteCandidates(Candidates(v), host);
    var c0 := Candidates(v)[0];
    var x := SrcsetRewritten(v, host);
    var tail := if |cs| == 1 then [] else ", " + Implode(", ", cs[1..]);
    assert x == cs[0] + tail;
    if cs[0] == [] {
      if |cs| >= 2 {
        assert x[0] == ',';
      }
    } else {
      if CandidateIsRootRelative(c0) {
        assert cs[0] == host + c0;
        NotRootRelativeExtends(host, c0);
      } else {
        assert cs[0] == c0;
      }
      NotRootRelativeExtends(cs[0], tail);
    }
  }

  // ----------------------------------------------------- attribute rounds

  /** The first inner loop for attribute `a`, on one element: a selected
      value gets `host` prepended. */
  function RewriteAttr(m: map<string, string>, a: string, host: string): map<string, string> {
    if XPathSelectsRootRelative(GetAttr(m, a)) then m[a := host + GetAttr(m, a)] else m
  }

  /** The second inner loop, on one element: its query selects every
      element that has a `srcset` attribute, whatever the value. */
  function RewriteSrcsetAttr(m: map<string, string>, host: string): map<string, string> {
    if "srcset" in m then m["srcset" := SrcsetRewritten(m["srcset"], host)] else m
  }

  /** One iteration of the outer loop, on one element. */
  function Round(m: map<string, string>, a: string, host: string): map<string, string> {
    RewriteSrcsetAttr(RewriteAttr(m, a, host), host)
  }

  /** The outer loop over `names`, on one element; only the visited
      attributes and `srcset` can change, and no attribute is added. */
  function Rounds(m: map<string, string>, names: seq<string>, host: string): (r: map<string, string>)
    ensures r.Keys == m.Keys
    ensures forall k :: k in m && k !in names && k != "srcset" ==> r[k] == m[k]
  {
    if names == [] then m
    else Round(Rounds(m, names[..|names| - 1], host), names[|names| - 1], host)
  }

  /** What the whole transform does to one element's attributes. */
  function AbsolutizeAttrs(m: map<string, string>, host: string): map<string, string> {
    Rounds(m, UriAttributes, host)
  }

  lemma {:induction false} RoundsAppend(m: map<string, string>, s: seq<string>, t: seq<string>, host: string)
    ensures Rounds(m, s + t, host) == Rounds(Rounds(m, s, host), t, host)
  {
    if t == [] {
      assert s + t == s;
    } else {
      var t' := t[..|t| - 1];
      assert (s + t)[..|s + t| - 1] == s + t';
      RoundsAppend(m, s, t', host);
    }
  }

  predicate Distinct(names: seq<string>) {
    forall i, j :: 0 <= i < j < |names| ==> names[i] != names[j]
  }

  /** Over distinct attribute names, the rounds rewrite a visited attribute
      other than `srcset` exactly once. */
  lemma {:induction false} RoundsVisited(m: map<string, string>, names: seq<string>, a: string, host: string)
    requires Distinct(names) && a in names && a != "srcset" && a in m
    ensures Rounds(m, names, host)[a] == if IsRootRelative(m[a]) then host + m[a] else m[a]
  {
    var init, last := names[..|names| - 1], names[|names| - 1];
    assert names == init + [last];
    var before := Rounds(m, init, host);
    assert Rounds(m, names, host) == Round(before, last, host);
    if last == a {
      assert a !in init by {
        forall k | 0 <= k < |init| ensures init[k] != a {
          assert init[k] == names[k];
        }
      }
      assert before[a] == m[a];
      RoundAt(before, a, host);
    } else {
      assert a in init;
      assert Distinct(init) by {
        forall i, j | 0 <= i < j < |init| ensures init[i] != init[j] {
          assert init[i] == names[i] && init[j] == names[j];
        }
      }
      RoundsVisited(m, init, a, host);
      RoundElsewhere(before, last, a, host);
    }
  }

  /** A round for `a` rewrites `a` exactly when its value is root-relative. */
  lemma RoundAt(m: map<string, string>, a: string, host: string)
    requires a != "srcset" && a in m
    ensures Round(m, a, host)[a] == if IsRootRelative(m[a]) then host + m[a] else m[a]
  {
    assert RewriteSrcsetAttr(RewriteAttr(m, a, host), host)[a] == RewriteAttr(m, a, host)[a];
  }

  /** A round for `b` leaves every other attribute except `srcset` alone. */
  lemma RoundElsewhere(m: map<string, string>, b: string, a: string, host: string)
    requires a != "srcset" && a != b && a in m
    ensures Round(m, b, host)[a] == m[a]
  {
    assert RewriteSrcsetAttr(RewriteAttr(m, b, host), host)[a] == RewriteAttr(m, b, host)[a];
  }

  /** Every URL-bearing attribute other than `srcset` is rewritten by the
      nine rounds exactly when its value is root-relative. */
  lemma AbsolutizedUriAttribute(m: map<string, string>, a: string, host: string)
    requires a in UriAttributes && a != "srcset" && a in m
    ensures AbsolutizeAttrs(m, host)[a] == if IsRootRelative(m[a]) then host + m[a] else m[a]
  {
    assert Distinct(UriAttributes);
    RoundsVisited(m, UriAttributes, a, host);
  }

  /** After at least one round (the first not being `srcset` itself) the
      `srcset` value is the once-rewritten original, however many rounds ran. */
  lemma {:induction false} RoundsSrcset(m: map<string, string>, names: seq<string>, host: string)
    requires SafeHost(host) && "srcset" in m
    requires |names| >= 1 && names[0] != "srcset"
    ensures Rounds(m, names, host)["srcset"] == SrcsetRewritten(m["srcset"], host)
  {
    var v := m["srcset"];
    var init, a := names[..|names| - 1], names[|names| - 1];
    var m1 := Rounds(m, init, host);
    assert Rounds(m, names, host) == Round(m1, a, host);
    if init == [] {
      assert m1 == m;
      assert a == names[0];
      assert RewriteAttr(m1, a, host)["srcset"] == v;
    } else {
      assert init[0] == names[0];
      RoundsSrcset(m, init, host);
      var v1 := m1["srcset"];
      assert v1 == SrcsetRewritten(v, host);
      var m2 := RewriteAttr(m1, a, host);
      assert m2["srcset"] == v1 by {
        if a == "srcset" && host != [] {
          SrcsetRewrittenNotRootRelative(v, host);
        }
      }
      SrcsetIdempotent(v, host);
    }
  }

  /** The `srcset` pass, run once per outer iteration, leaves the value it
      would leave after a single run. */
  lemma AbsolutizedSrcset(m: map<string, string>, host: string)
    requires SafeHost(host) && "srcset" in m
    ensures AbsolutizeAttrs(m, host)["srcset"] == SrcsetRewritten(m["srcset"], host)
  {
    RoundsSrcset(m, UriAttributes, host);
  }

  /** Absolutising an element's attributes twice is absolutising them once. */
  lemma AbsolutizeAttrsIdempotent(m: map<string, string>, host: string)
    requires SafeHost(host)
    ensures AbsolutizeAttrs(AbsolutizeAttrs(m, host), host) == AbsolutizeAttrs(m, host)
  {
    var m1 := AbsolutizeAttrs(m, host);
    var m2 := AbsolutizeAttrs(m1, host);
    forall k | k in m1 ensures m2[k] == m1[k] {
      if k == "srcset" {
        AbsolutizedSrcset(m, host);
        AbsolutizedSrcset(m1, host);
        SrcsetIdempotent(m["srcset"], host);
      } else if k in UriAttributes {
        AbsolutizedUriAttribute(m, k, host);
        AbsolutizedUriAttribute(m1, k, host);
        if IsRootRelative(m[k]) && host != [] {
          NotRootRelativeExtends(host, m[k]);
        }
      }
    }
  }
}
