/** `HtmlResponseSubscriber`: the post-processing of the ModernGov template
    page. Root-relative URLs anywhere in the document become absolute, the
    first visible `<main>` is emptied on request, and either the first
    `<header>`, the first `<footer>` or the whole document is serialised. */
module HtmlResponseSubscriber {
  import opened PhpStrings
  import opened RootRelativeUrls
  import opened HtmlDom

  type Attrs = map<string, string>

  // --------------------------------------------- URL absolutisation, specs

  /** The elements the query for root-relative values of attribute `a`
      selects, in document order. */
  function SelectRootRelative(d: Dom, a: string): (r: seq<nat>)
    requires WellFormed(d)
    ensures NoDup(r)
    ensures forall n: nat :: n in r <==> IsDocElement(d, n) && IsRootRelative(GetAttr(d.attrs[n], a))
  {
    DocOrderNoDup(d, d.root);
    Filter(DocumentOrder(d), (n: nat) => IsElement(d, n) && XPathSelectsRootRelative(GetAttr(d.attrs[n], a)))
  }

  /** The elements that have a `srcset` attribute, in document order. */
  function SelectSrcset(d: Dom): (r: seq<nat>)
    requires WellFormed(d)
    ensures NoDup(r)
    ensures forall n: nat :: n in r <==> IsDocElement(d, n) && "srcset" in d.attrs[n]
  {
    DocOrderNoDup(d, d.root);
    Filter(DocumentOrder(d), (n: nat) => IsElement(d, n) && "srcset" in d.attrs[n])
  }

  /** Two arenas that differ at most in attribute values. */
  predicate SameShape(d: Dom, e: Dom) {
    e.kinds == d.kinds && e.kids == d.kids && e.parent == d.parent && e.root == d.root &&
    |e.attrs| == |d.attrs|
  }

  /** The document with `f` applied to the attributes of each of its
      elements; every other node, and the tree itself, stay as they are. */
  function MapElementAttrs(d: Dom, f: Attrs -> Attrs): (r: Dom)
    requires WellFormed(d)
    ensures WellFormed(r) && SameShape(d, r)
  {
    d.(attrs := seq(|d.attrs|, n requires 0 <= n < |d.attrs| =>
                      if IsDocElement(d, n) then f(d.attrs[n]) else d.attrs[n]))
  }

  /** The first inner loop, per element. */
  function AttrStep(a: string, host: string): Attrs -> Attrs {
    m => RewriteAttr(m, a, host)
  }

  /** The `srcset` loop, per element. */
  function SrcsetStep(host: string): Attrs -> Attrs {
    m => RewriteSrcsetAttr(m, host)
  }

  /** The rounds of the outer loop over `names`, per element. */
  function RoundsStep(names: seq<string>, host: string): Attrs -> Attrs {
    m => Rounds(m, names, host)
  }

  /** The document after the outer loop has visited `names`. Only visited
      attributes and `srcset` change, no attribute is added, and nodes
      outside the document are untouched. */
  function AbsolutizedBy(d: Dom, names: seq<string>, host: string): (r: Dom)
    requires WellFormed(d)
    ensures WellFormed(r) && SameShape(d, r)
    ensures forall n :: 0 <= n < |d.attrs| ==> r.attrs[n].Keys == d.attrs[n].Keys
    ensures forall n :: 0 <= n < |d.attrs| && !IsDocElement(d, n) ==> r.attrs[n] == d.attrs[n]
    ensures forall n, k :: 0 <= n < |d.attrs| && k in d.attrs[n] && k !in names && k != "srcset" ==>
              r.attrs[n][k] == d.attrs[n][k]
  {
    MapElementAttrs(d, RoundsStep(names, host))
  }

  /** What `transformRootRelativeUrlsToAbsolute` does to a document. */
  function Absolutized(d: Dom, host: string): (r: Dom)
    requires WellFormed(d)
    ensures WellFormed(r) && SameShape(d, r)
  {
    AbsolutizedBy(d, UriAttributes, host)
  }

  /** One iteration of the outer loop extends the visited attributes by one. */
  lemma RoundStep(d: Dom, names: seq<string>, a: string, host: string)
    requires WellFormed(d)
    ensures MapElementAttrs(MapElementAttrs(AbsolutizedBy(d, names, host), AttrStep(a, host)), SrcsetStep(host)) ==
            AbsolutizedBy(d, names + [a], host)
  {
    var e := AbsolutizedBy(d, names, host);
    var e1 := MapElementAttrs(e, AttrStep(a, host));
    var e2 := MapElementAttrs(e1, SrcsetStep(host));
    var f := AbsolutizedBy(d, names + [a], host);
    forall n | 0 <= n < |d.attrs| ensures e2.attrs[n] == f.attrs[n] {
      assert IsDocElement(e1, n) == IsDocElement(d, n) && IsDocElement(e, n) == IsDocElement(d, n);
      if IsDocElement(d, n) {
        RoundsStepAt(d.attrs[n], names, a, host);
      }
    }
    assert e2.attrs == f.attrs;
  }

  lemma RoundsStepAt(m: Attrs, names: seq<string>, a: string, host: string)
    ensures SrcsetStep(host)(AttrStep(a, host)(RoundsStep(names, host)(m))) == RoundsStep(names + [a], host)(m)
  {
    assert (names + [a])[..|names|] == names;
  }

  /** Every URL attribute other than `srcset` of every element of the
      document ends up prefixed with `host` exactly when it was root-relative. */
  lemma AbsolutizedUriAttr(d: Dom, host: string, n: nat, a: string)
    requires WellFormed(d) && IsDocElement(d, n)
    requires a in UriAttributes && a != "srcset" && a in d.attrs[n]
    ensures a in Absolutized(d, host).attrs[n]
    ensures Absolutized(d, host).attrs[n][a] ==
            if IsRootRelative(d.attrs[n][a]) then host + d.attrs[n][a] else d.attrs[n][a]
  {
    AbsolutizedUriAttribute(d.attrs[n], a, host);
  }

  /** Every `srcset` of the document is rewritten as by one pass, although
      the source runs the pass nine times. */
  lemma AbsolutizedSrcsetAttr(d: Dom, host: string, n: nat)
    requires WellFormed(d) && SafeHost(host) && IsDocElement(d, n) && "srcset" in d.attrs[n]
    ensures "srcset" in Absolutized(d, host).attrs[n]
    ensures Absolutized(d, host).attrs[n]["srcset"] == SrcsetRewritten(d.attrs[n]["srcset"], host)
  {
    AbsolutizedSrcset(d.attrs[n], host);
  }

  /** Absolutising an absolutised document changes nothing. */
  lemma AbsolutizedIdempotent(d: Dom, host: string)
    requires WellFormed(d) && SafeHost(host)
    ensures Absolutized(Absolutized(d, host), host) == Absolutized(d, host)
  {
    var e := Absolutized(d, host);
    var e2 := Absolutized(e, host);
    forall n | 0 <= n < |d.attrs| ensures e2.attrs[n] == e.attrs[n] {
      if IsDocElement(d, n) {
        AbsolutizeAttrsIdempotent(d.attrs[n], host);
      }
    }
    assert e2.attrs == e.attrs;
  }

  // ---------------------------------------- URL absolutisation, methods

  /** The state of a `setAttribute` loop over a query snapshot once the
      elements in `done` have been visited: they carry `f` of their
      original attributes, every other node its original ones. */
  predicate LoopState(d: Dom, e: Dom, done: seq<nat>, f: Attrs -> Attrs) {
    WellFormed(e) && SameShape(d, e) &&
    forall n :: 0 <= n < |d.attrs| ==> e.attrs[n] == if n in done then f(d.attrs[n]) else d.attrs[n]
  }

  lemma LoopStep(d: Dom, e: Dom, nodes: seq<nat>, j: nat, f: Attrs -> Attrs, key: string, value: string)
    requires WellFormed(d) && NoDup(nodes) && j < |nodes| && nodes[j] < |d.attrs|
    requires LoopState(d, e, nodes[..j], f)
    requires f(d.attrs[nodes[j]]) == d.attrs[nodes[j]][key := value]
    ensures nodes[j] < |e.kinds| && e.attrs[nodes[j]] == d.attrs[nodes[j]]
    ensures LoopState(d, SetAttr(e, nodes[j], key, value), nodes[..j + 1], f)
  {
    var n := nodes[j];
    assert n !in nodes[..j];
    assert nodes[..j + 1] == nodes[..j] + [n];
  }

  lemma LoopDone(d: Dom, e: Dom, nodes: seq<nat>, f: Attrs -> Attrs)
    requires WellFormed(d) && LoopState(d, e, nodes, f)
    requires forall n: nat :: n in nodes ==> IsDocElement(d, n)
    requires forall n: nat :: IsDocElement(d, n) && n !in nodes ==> f(d.attrs[n]) == d.attrs[n]
    ensures e == MapElementAttrs(d, f)
  {
    assert e.attrs == MapElementAttrs(d, f).attrs;
  }

  /** The body of the `srcset` loop for one value: split on commas, trim
      every candidate, prefix the root-relative ones, join with ", ". */
  method RewriteSrcset(value: string, host: string) returns (r: string)
    ensures r == SrcsetRewritten(value, host)
  {
    var candidates := Explode(',', value);
    candidates := TrimAll(candidates);
    ghost var trimmed := candidates;
    for i := 0 to |candidates|
      invariant |candidates| == |trimmed|
      invariant forall k :: 0 <= k < i ==> candidates[k] == RewriteCandidate(trimmed[k], host)
      invariant forall k :: i <= k < |candidates| ==> candidates[k] == trimmed[k]
    {
      var candidate := candidates[i];
      if Offset(candidate, 0) == "/" && Offset(candidate, 1) != "/" {
        candidates := candidates[i := host + candidate];
      }
    }
    assert candidates == RewriteCandidates(trimmed, host);
    r := Implode(", ", candidates);
  }

  /** The first inner loop: `setAttribute` on every element whose value of
      `a` is root-relative, over the query's snapshot. */
  method AbsolutizeAttribute(doc: Document, a: string, host: string)
    requires WellFormed(doc.dom)
    modifies doc
    ensures doc.dom == MapElementAttrs(old(doc.dom), AttrStep(a, host))
  {
    ghost var d := doc.dom;
    ghost var f := AttrStep(a, host);
    var nodes := SelectRootRelative(doc.dom, a);
    for j := 0 to |nodes|
      invariant LoopState(d, doc.dom, nodes[..j], f)
    {
      var n := nodes[j];
      assert n in nodes;
      LoopStep(d, doc.dom, nodes, j, f, a, host + GetAttr(d.attrs[n], a));
      doc.SetAttribute(n, a, host + GetAttr(doc.dom.attrs[n], a));
    }
    assert nodes[..|nodes|] == nodes;
    LoopDone(d, doc.dom, nodes, f);
  }

  lemma SrcsetStepSelected(m: Attrs, host: string)
    requires "srcset" in m
    ensures SrcsetStep(host)(m) == m["srcset" := SrcsetRewritten(m["srcset"], host)]
  {
  }

  /** The second inner loop: every element with a `srcset` gets the
      rewritten value. */
  method RewriteSrcsetAttributes(doc: Document, host: string)
    requires WellFormed(doc.dom)
    modifies doc
    ensures doc.dom == MapElementAttrs(old(doc.dom), SrcsetStep(host))
  {
    ghost var d := doc.dom;
    ghost var f := SrcsetStep(host);
    var nodes := SelectSrcset(doc.dom);
    for j := 0 to |nodes|
      invariant LoopState(d, doc.dom, nodes[..j], f)
    {
      var n := nodes[j];
      assert n in nodes;
      assert doc.dom.attrs[n] == d.attrs[n] by {
        assert n !in nodes[..j];
      }
      var value := RewriteSrcset(GetAttr(doc.dom.attrs[n], "srcset"), host);
      SrcsetStepSelected(d.attrs[n], host);
      LoopStep(d, doc.dom, nodes, j, f, "srcset", value);
      doc.SetAttribute(n, "srcset", value);
    }
    assert nodes[..|nodes|] == nodes;
    LoopDone(d, doc.dom, nodes, f);
  }

  /** `transformRootRelativeUrlsToAbsolute`: the nine attribute rounds, each
      followed by the `srcset` pass; the same document comes back. */
  method TransformRootRelativeUrlsToAbsolute(doc: Document, host: string) returns (r: Document)
    requires WellFormed(doc.dom)
    modifies doc
    ensures r == doc && doc.dom == Absolutized(old(doc.dom), host)
  {
    ghost var d := doc.dom;
    for i := 0 to |UriAttributes|
      invariant doc.dom == AbsolutizedBy(d, UriAttributes[..i], host)
    {
      var a := UriAttributes[i];
      AbsolutizeAttribute(doc, a, host);
      RewriteSrcsetAttributes(doc, host);
      RoundStep(d, UriAttributes[..i], a, host);
      assert UriAttributes[..i + 1] == UriAttributes[..i] + [a];
    }
    assert UriAttributes[..|UriAttributes|] == UriAttributes;
    r := doc;
  }

  // ------------------------------------------------------ emptying <main>

  predicate IsVisibleMain(d: Dom, n: nat)
    requires WellFormed(d)
  {
    HasTag(d, n, "main") && "hidden" !in d.attrs[n]
  }

  /** The `<main>` elements without a `hidden` attribute, in document order. */
  function VisibleMains(d: Dom): (r: seq<nat>)
    requires WellFormed(d)
    ensures NoDup(r)
    ensures forall n :: n in r <==> n in DocumentOrder(d) && IsVisibleMain(d, n)
  {
    Filter(ElementsByTagName(d, "main"), NotHiddenTest(d))
  }

  function NotHiddenTest(d: Dom): nat -> bool {
    (n: nat) => n < |d.attrs| && "hidden" !in d.attrs[n]
  }

  /** `m` is the first visible `<main>` in document order. */
  predicate IsFirstVisibleMain(d: Dom, m: nat)
    requires WellFormed(d)
  {
    var order := DocumentOrder(d);
    exists i :: 0 <= i < |order| && order[i] == m && IsVisibleMain(d, m) &&
      forall k :: 0 <= k < i ==> !IsVisibleMain(d, order[k])
  }

  /** The document with every child of `p` removed: `p` keeps its kind and
      attributes, its former children lose their parent, nothing else moves. */
  function WithoutChildren(d: Dom, p: nat): (r: Dom)
    requires WellFormed(d) && p < |d.kinds|
    ensures WellFormed(r)
    ensures r.kinds == d.kinds && r.attrs == d.attrs && r.root == d.root
    ensures r.kids[p] == [] && forall q :: 0 <= q < |d.kids| && q != p ==> r.kids[q] == d.kids[q]
    ensures forall c :: 0 <= c < |d.parent| ==> r.parent[c] == if c in d.kids[p] then None else d.parent[c]
    ensures Subtree(r, p) == Tree(d.kinds[p], d.attrs[p], [])
  {
    var r := d.(kids := d.kids[p := []],
                parent := seq(|d.parent|, c requires 0 <= c < |d.parent| => if c in d.kids[p] then None else d.parent[c]));
    assert ChildrenBelow(r.kids) && forall n, i :: 0 <= n < |r.kids| && 0 <= i < |r.kids[n]| ==> r.parent[r.kids[n][i]] == Some(n) by {
      forall n, i | 0 <= n < |r.kids| && 0 <= i < |r.kids[n]|
        ensures r.kids[n][i] < n && r.parent[r.kids[n][i]] == Some(n)
      {
        var x := d.kids[n][i];
        assert r.kids[n][i] == x && d.parent[x] == Some(n);
        if x in d.kids[p] {
          ListedChild(d, p, x);
        }
      }
    }
    assert forall n :: 0 <= n < |r.kids| ==> NoDup(r.kids[n]) by {
      forall n | 0 <= n < |r.kids| ensures NoDup(r.kids[n]) {
        if n != p {
          assert r.kids[n] == d.kids[n];
        }
      }
    }
    assert forall n :: 0 <= n < |r.parent| && r.parent[n].Some? ==>
             r.parent[n].value < |r.kids| && n in r.kids[r.parent[n].value] by {
      forall n | 0 <= n < |r.parent| && r.parent[n].Some?
        ensures r.parent[n].value < |r.kids| && n in r.kids[r.parent[n].value]
      {
        assert n !in d.kids[p] && r.parent[n] == d.parent[n];
      }
    }
    r
  }

  /** What `emptyContent` does to a document. */
  function EmptiedContent(d: Dom): (r: Dom)
    requires WellFormed(d)
    ensures WellFormed(r)
  {
    var visible := VisibleMains(d);
    if visible == [] then d else assert visible[0] in visible; WithoutChildren(d, visible[0])
  }

  lemma {:induction false} FilterFilter(s: seq<nat>, p: nat -> bool, q: nat -> bool, pq: nat -> bool)
    requires forall x :: pq(x) == (p(x) && q(x))
    ensures Filter(Filter(s, p), q) == Filter(s, pq)
  {
    if s != [] {
      FilterFilter(s[1..], p, q, pq);
      var rest := Filter(s[1..], p);
      if p(s[0]) {
        assert ([s[0]] + rest)[1..] == rest;
      } else {
        assert [] + rest == rest;
      }
    }
  }

  /** Without a visible `<main>`, `emptyContent` leaves the document alone. */
  lemma EmptiedContentWithoutVisibleMain(d: Dom)
    requires WellFormed(d)
    requires forall n :: n in DocumentOrder(d) ==> !IsVisibleMain(d, n)
    ensures EmptiedContent(d) == d
  {
    NoMemberEmpty(VisibleMains(d));
  }

  /** With a visible `<main>`, `emptyContent` removes all children of the
      first one in document order and changes nothing else: not its
      attributes, not other (hidden or later) mains. */
  lemma EmptiedContentClearsFirstVisibleMain(d: Dom)
    requires WellFormed(d)
    requires exists n :: n in DocumentOrder(d) && IsVisibleMain(d, n)
    ensures VisibleMains(d) != []
    ensures IsFirstVisibleMain(d, VisibleMains(d)[0])
    ensures EmptiedContent(d) == WithoutChildren(d, VisibleMains(d)[0])
  {
    var n :| n in DocumentOrder(d) && IsVisibleMain(d, n);
    assert n in VisibleMains(d);
    var order, test := DocumentOrder(d), VisibleTest(d);
    VisibleMainsInOrder(d);
    FilterFirst(order, test);
    var i :| 0 <= i < |order| && order[i] == Filter(order, test)[0] && test(order[i]) &&
             forall j :: 0 <= j < i ==> !test(order[j]);
    assert IsVisibleMain(d, order[i]);
    forall j | 0 <= j < i ensures !IsVisibleMain(d, order[j]) {
      assert !test(order[j]);
    }
  }

  function VisibleTest(d: Dom): nat -> bool {
    (x: nat) => HasTag(d, x, "main") && x < |d.attrs| && "hidden" !in d.attrs[x]
  }

  /** The two filters of `emptyContent` select in one pass over the document. */
  lemma VisibleMainsInOrder(d: Dom)
    requires WellFormed(d)
    ensures VisibleMains(d) == Filter(DocumentOrder(d), VisibleTest(d))
  {
    FilterFilter(DocumentOrder(d), TagTest(d, "main"), NotHiddenTest(d), VisibleTest(d));
  }

  /** The document once the first `j` of the children `cs` of `p` have
      been removed. */
  function PartlyEmptied(d: Dom, p: nat, cs: seq<nat>, j: nat): Dom
    requires p < |d.kids| && j <= |cs|
  {
    Dom(d.kinds, d.attrs, d.kids[p := cs[j..]],
        seq(|d.parent|, c requires 0 <= c < |d.parent| => if c in cs[..j] then None else d.parent[c]),
        d.root)
  }

  lemma RemovalStart(d: Dom, p: nat)
    requires WellFormed(d) && p < |d.kinds|
    ensures PartlyEmptied(d, p, d.kids[p], 0) == d
  {
    var e := PartlyEmptied(d, p, d.kids[p], 0);
    assert d.kids[p][0..] == d.kids[p];
    assert e.kids == d.kids;
    assert e.parent == d.parent;
  }

  lemma RemovalStep(d: Dom, p: nat, j: nat)
    requires WellFormed(d) && p < |d.kinds| && j < |d.kids[p]|
    requires WellFormed(PartlyEmptied(d, p, d.kids[p], j))
    ensures d.kids[p][j] in PartlyEmptied(d, p, d.kids[p], j).kids[p]
    ensures DetachChild(PartlyEmptied(d, p, d.kids[p], j), p, d.kids[p][j]) == PartlyEmptied(d, p, d.kids[p], j + 1)
  {
    var cs := d.kids[p];
    var e, f := PartlyEmptied(d, p, cs, j), PartlyEmptied(d, p, cs, j + 1);
    var c := cs[j];
    assert cs[j..][0] == c;
    DetachChildRemoves(e, p, c);
    RemainingAfterHead(cs, j);
    assert e.kids[p := cs[j + 1..]] == f.kids;
    RemovalStepParents(d, p, j);
  }

  /** Removing the head of the rest of a duplicate-free list leaves its tail. */
  lemma RemainingAfterHead(cs: seq<nat>, j: nat)
    requires NoDup(cs) && j < |cs|
    ensures WithoutAll(cs[j..], [cs[j]]) == cs[j + 1..]
  {
    assert NoDup(cs[j..]) by {
      forall x, y | 0 <= x < y < |cs[j..]| ensures cs[j..][x] != cs[j..][y] {
        assert cs[j..][x] == cs[j + x] && cs[j..][y] == cs[j + y];
      }
    }
    WithoutAllHead(cs[j..]);
    assert cs[j..][1..] == cs[j + 1..];
  }

  lemma RemovalStepParents(d: Dom, p: nat, j: nat)
    requires WellFormed(d) && p < |d.kinds| && j < |d.kids[p]|
    ensures PartlyEmptied(d, p, d.kids[p], j).parent[d.kids[p][j] := None] ==
            PartlyEmptied(d, p, d.kids[p], j + 1).parent
  {
    var cs := d.kids[p];
    assert cs[..j + 1] == cs[..j] + [cs[j]];
  }

  lemma RemovalDone(d: Dom, p: nat)
    requires WellFormed(d) && p < |d.kinds|
    ensures PartlyEmptied(d, p, d.kids[p], |d.kids[p]|) == WithoutChildren(d, p)
  {
    var cs := d.kids[p];
    assert cs[..|cs|] == cs && cs[|cs|..] == [];
    assert PartlyEmptied(d, p, cs, |cs|).parent == WithoutChildren(d, p).parent;
  }

  /** `emptyContent`: copy the child list of the first visible `<main>`,
      then remove each of those children; the same document comes back. */
  method EmptyContent(doc: Document) returns (r: Document)
    requires WellFormed(doc.dom)
    modifies doc
    ensures r == doc && doc.dom == EmptiedContent(old(doc.dom))
  {
    ghost var d := doc.dom;
    var visible := VisibleMains(doc.dom);
    if visible == [] {
      return doc;
    }
    var main := visible[0];
    assert main in visible;
    var children: seq<nat> := [];
    for k := 0 to |doc.dom.kids[main]|
      invariant children == doc.dom.kids[main][..k]
    {
      children := children + [doc.dom.kids[main][k]];
    }
    assert children == d.kids[main];
    RemovalStart(d, main);
    for j := 0 to |children|
      invariant WellFormed(doc.dom)
      invariant doc.dom == PartlyEmptied(d, main, children, j)
    {
      RemovalStep(d, main, j);
      doc.RemoveChild(main, children[j]);
    }
    RemovalDone(d, main);
    r := doc;
  }

  // ------------------------------------------------------------ dispatch

  const ModernGovRoute: string := "localgov_moderngov.modern_gov"

  /** The parts of the request the dispatcher reads: whether each of the
      `nocontent`, `header` and `footer` query parameters is present, the
      route name (absent for an unrouted request) and the scheme and host. */
  datatype Request = Request(nocontent: bool, header: bool, footer: bool,
                             route: Option<string>, schemeAndHost: string)

  /** The response content is left as it was, or replaced. */
  datatype Outcome = Unmodified | Replaced(html: string)

  function ProcessedDocument(d: Dom, req: Request): (e: Dom)
    requires WellFormed(d)
    ensures WellFormed(e)
  {
    var absolute := Absolutized(d, req.schemeAndHost);
    if req.nocontent then EmptiedContent(absolute) else absolute
  }

  /** The node to serialise: the first `<header>` if asked for, else the
      first `<footer>` if asked for; null otherwise or when there is none. */
  function SelectedNode(e: Dom, req: Request): (r: Option<nat>)
    requires WellFormed(e)
    ensures r.Some? ==> r.value < |e.kinds|
  {
    if req.header then First(ElementsByTagName(e, "header"))
    else if req.footer then First(ElementsByTagName(e, "footer"))
    else None
  }

  /** What `onRespond` makes of the response, as a function of the parsed
      content. */
  function Respond(isHtml: bool, req: Request, d: Dom, save: Serializer): (o: Outcome)
    requires WellFormed(d)
    ensures o.Unmodified? <==> !isHtml || req.route != Some(ModernGovRoute)
  {
    if !isHtml || req.route != Some(ModernGovRoute) then Unmodified
    else
      var e := ProcessedDocument(d, req);
      Replaced(ToHtml(e, SelectedNode(e, req), save))
  }

  /** `onRespond`: bail out unless this is the ModernGov HTML page, then
      absolutise, optionally empty `<main>`, and serialise. */
  method OnRespond(isHtml: bool, req: Request, content: Dom, save: Serializer) returns (o: Outcome)
    requires WellFormed(content)
    ensures o == Respond(isHtml, req, content, save)
  {
    if !isHtml || req.route != Some(ModernGovRoute) {
      return Unmodified;
    }
    var htmlDom := new Document(content);
    var withAbsoluteUrls := TransformRootRelativeUrlsToAbsolute(htmlDom, req.schemeAndHost);
    if req.nocontent {
      withAbsoluteUrls := EmptyContent(withAbsoluteUrls);
    }
    var resultant: string;
    if req.header {
      var headers := ElementsByTagName(withAbsoluteUrls.dom, "header");
      resultant := ToHtml(withAbsoluteUrls.dom, First(headers), save);
    } else if req.footer {
      var footers := ElementsByTagName(withAbsoluteUrls.dom, "footer");
      resultant := ToHtml(withAbsoluteUrls.dom, First(footers), save);
    } else {
      resultant := ToHtml(withAbsoluteUrls.dom, None, save);
    }
    o := Replaced(resultant);
  }

  /** On the ModernGov page a `header` request serialises the first
      `<header>` of the processed document, whatever the `footer` flag. */
  lemma RespondHeader(isHtml: bool, req: Request, d: Dom, save: Serializer)
    requires WellFormed(d) && isHtml && req.route == Some(ModernGovRoute) && req.header
    requires exists h :: h in DocumentOrder(ProcessedDocument(d, req)) && HasTag(ProcessedDocument(d, req), h, "header")
    ensures exists h :: IsFirstWithTag(ProcessedDocument(d, req), h, "header") &&
              Respond(isHtml, req, d, save) == Replaced(save.node(Subtree(ProcessedDocument(d, req), h)))
  {
    var e := ProcessedDocument(d, req);
    var h :| h in DocumentOrder(e) && HasTag(e, h, "header");
    assert h in ElementsByTagName(e, "header");
    FirstElementByTagName(e, "header");
  }

  /** Without a `header` request, a `footer` request serialises the first
      `<footer>` of the processed document. */
  lemma RespondFooter(isHtml: bool, req: Request, d: Dom, save: Serializer)
    requires WellFormed(d) && isHtml && req.route == Some(ModernGovRoute) && !req.header && req.footer
    requires exists f :: f in DocumentOrder(ProcessedDocument(d, req)) && HasTag(ProcessedDocument(d, req), f, "footer")
    ensures exists f :: IsFirstWithTag(ProcessedDocument(d, req), f, "footer") &&
              Respond(isHtml, req, d, save) == Replaced(save.node(Subtree(ProcessedDocument(d, req), f)))
  {
    var e := ProcessedDocument(d, req);
    var f :| f in DocumentOrder(e) && HasTag(e, f, "footer");
    assert f in ElementsByTagName(e, "footer");
    FirstElementByTagName(e, "footer");
  }

  /** When the requested element does not exist, or nothing is requested,
      the whole processed document is serialised. */
  lemma RespondWholeDocument(isHtml: bool, req: Request, d: Dom, save: Serializer)
    requires WellFormed(d) && isHtml && req.route == Some(ModernGovRoute)
    requires var tag := if req.header then "header" else "footer";
             !(req.header || req.footer) ||
             forall n :: n in DocumentOrder(ProcessedDocument(d, req)) ==> !HasTag(ProcessedDocument(d, req), n, tag)
    ensures Respond(isHtml, req, d, save) ==
            Replaced(save.document(Subtree(ProcessedDocument(d, req), ProcessedDocument(d, req).root)))
  {
    var e := ProcessedDocument(d, req);
    var tag := if req.header then "header" else "footer";
    if req.header || req.footer {
      NoMemberEmpty(ElementsByTagName(e, tag));
    }
  }
}
