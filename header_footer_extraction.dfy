/** The header and footer fragments: the first `<header>` (or `<footer>`)
    together with the scripts and stylesheets around it, each group moved
    out of the document into a wrapper `<div>` and serialised. */
module HeaderFooterExtraction {
  import opened PhpStrings
  import opened HtmlDom

  const HeadClass: string := "scripts-n-links"
  const PreHeaderClass: string := "pre-header-body-scripts"
  const PostFooterClass: string := "post-footer-body-scripts"

  /** `PHP_EOL` on the platforms the site runs on. */
  const Eol: string := "\n"

  /** The three node selections, one per XPath query. */
  datatype Query = HeadScriptsAndStyles | PreHeaderScripts | PostFooterScripts

  /** A serialised fragment and the document as the extraction leaves it. */
  datatype Extracted = Extracted(markup: string, dom: Dom)

  // ------------------------------------------------------------ selections

  /** `x` is an element child of a `<head>` that is a child of an `<html>`
      element that is a child of the document node: `/html/head/x`. */
  predicate InHtmlHead(d: Dom, x: nat)
    requires WellFormed(d)
  {
    && x < |d.kinds| && d.parent[x].Some?
    && var h := d.parent[x].value;
    && HasTag(d, h, "head") && d.parent[h].Some?
    && var t := d.parent[h].value;
    && HasTag(d, t, "html") && d.parent[t] == Some(d.root)
  }

  /** `b` is a `<body>` child of an `<html>` child of the document node. */
  predicate IsHtmlBody(d: Dom, b: nat)
    requires WellFormed(d)
  {
    && HasTag(d, b, "body") && d.parent[b].Some?
    && var t := d.parent[b].value;
    && HasTag(d, t, "html") && d.parent[t] == Some(d.root)
  }

  /** `x` lies strictly below such a body: `/html/body//x`. */
  predicate InHtmlBody(d: Dom, x: nat)
    requires WellFormed(d)
  {
    exists b :: 0 <= b < |d.kinds| && IsHtmlBody(d, b) && x != b && x in DocOrder(d.kids, b)
  }

  /** `/html/head/script|/html/head/link[@rel="stylesheet"]`. */
  predicate IsHeadAsset(d: Dom, x: nat)
    requires WellFormed(d)
  {
    InHtmlHead(d, x) &&
    (HasTag(d, x, "script") ||
     (HasTag(d, x, "link") && "rel" in d.attrs[x] && d.attrs[x]["rel"] == "stylesheet"))
  }

  /** `script[following::header]`: some `<header>` comes after `x` in
      document order and is not one of its descendants. */
  predicate HasFollowingHeader(d: Dom, x: nat)
    requires WellFormed(d)
  {
    var order := DocumentOrder(d);
    x < |d.kinds| &&
    exists i, j :: 0 <= i < j < |order| && order[i] == x &&
      HasTag(d, order[j], "header") && order[j] !in DocOrder(d.kids, x)
  }

  /** `script[preceding::footer]`: some `<footer>` comes before `x` in
      document order and is not one of its ancestors. */
  predicate HasPrecedingFooter(d: Dom, x: nat)
    requires WellFormed(d)
  {
    var order := DocumentOrder(d);
    exists j, i :: 0 <= j < i < |order| && order[i] == x &&
      HasTag(d, order[j], "footer") && x !in DocOrder(d.kids, order[j])
  }

  predicate Matches(d: Dom, q: Query, x: nat)
    requires WellFormed(d)
  {
    match q
    case HeadScriptsAndStyles => IsHeadAsset(d, x)
    case PreHeaderScripts => HasTag(d, x, "script") && InHtmlBody(d, x) && HasFollowingHeader(d, x)
    case PostFooterScripts => HasTag(d, x, "script") && InHtmlBody(d, x) && HasPrecedingFooter(d, x)
  }

  /** The test as a total function, for filtering. */
  function QueryTest(d: Dom, q: Query): nat -> bool {
    (x: nat) => WellFormed(d) && Matches(d, q, x)
  }

  /** `$xpath->query(...)`: the matching nodes, in document order. */
  function Select(d: Dom, q: Query): (r: seq<nat>)
    requires WellFormed(d)
    ensures NoDup(r)
    ensures forall x :: x in r <==> x in DocumentOrder(d) && Matches(d, q, x)
    ensures forall i :: 0 <= i < |r| ==> IsElement(d, r[i])
  {
    DocOrderNoDup(d, d.root);
    var r := Filter(DocumentOrder(d), QueryTest(d, q));
    assert forall i :: 0 <= i < |r| ==> IsElement(d, r[i]) by {
      forall i | 0 <= i < |r| ensures IsElement(d, r[i]) {
        assert r[i] in r;
      }
    }
    r
  }

  /** The selection keeps document order: the matches at `i < j` sit at
      positions `a < b` of the document order. */
  lemma SelectInDocumentOrder(d: Dom, q: Query, i: nat, j: nat) returns (a: nat, b: nat)
    requires WellFormed(d) && i < j < |Select(d, q)|
    ensures a < b < |DocumentOrder(d)|
    ensures DocumentOrder(d)[a] == Select(d, q)[i] && DocumentOrder(d)[b] == Select(d, q)[j]
  {
    a, b := FilterKeepsOrder(DocumentOrder(d), QueryTest(d, q), i, j);
  }

  // ------------------------------------------------------------- wrapper

  /** The attributes `createEmptyDiv` leaves on the new `<div>`. */
  function DivAttrs(classname: string): (r: map<string, string>)
    ensures "class" in r <==> IsTruthy(classname)
    ensures "class" in r ==> r["class"] == classname
    ensures r.Keys <= {"class"}
  {
    if IsTruthy(classname) then map["class" := classname] else map[]
  }

  /** `createEmptyDiv`: a new parentless, childless `<div>`, with the class
      set only when the name is truthy; nothing else in the document
      changes. */
  method CreateEmptyDiv(doc: Document, classname: string) returns (w: nat)
    requires WellFormed(doc.dom)
    modifies doc
    ensures w == |old(doc.dom).kinds| && doc.dom == NewElement(old(doc.dom), "div", DivAttrs(classname))
    ensures doc.dom.kinds[w] == ElementNode("div") && doc.dom.kids[w] == [] && doc.dom.parent[w] == None
  {
    ghost var d := doc.dom;
    w := doc.CreateElement("div");
    if IsTruthy(classname) {
      doc.SetAttribute(w, "class", classname);
      assert doc.dom.attrs == d.attrs + [map["class" := classname]];
    }
  }

  // --------------------------------------------------------------- moves

  /** Nodes all below `w` and none the document node, so each may be
      appended to `w`. */
  predicate Movable(d: Dom, w: nat, nodes: seq<nat>) {
    forall i :: 0 <= i < |nodes| ==> nodes[i] < w && nodes[i] != d.root
  }

  /** The `foreach` of `extractMarkup`: each node in turn appended to `w`. */
  function MovedInto(d: Dom, w: nat, nodes: seq<nat>): (r: Dom)
    requires WellFormed(d) && w < |d.kinds| && Movable(d, w, nodes)
    ensures WellFormed(r)
    ensures r.kinds == d.kinds && r.attrs == d.attrs && r.root == d.root
  {
    if nodes == [] then d
    else
      var last := nodes[|nodes| - 1];
      assert Movable(d, w, nodes[..|nodes| - 1]);
      AppendChild(MovedInto(d, w, nodes[..|nodes| - 1]), w, last)
  }

  /** The state after moving `nodes` into the childless `w`: `w` has exactly
      them as children, in order; each lost its former parent; every other
      child list only lost moved nodes; kinds and attributes are as before. */
  predicate Moved(d: Dom, e: Dom, w: nat, nodes: seq<nat>)
    requires WellFormed(d) && WellFormed(e) && w < |d.kinds|
  {
    && e.kinds == d.kinds && e.attrs == d.attrs && e.root == d.root
    && e.kids[w] == nodes
    && (forall y :: 0 <= y < |d.kids| && y != w ==> e.kids[y] == WithoutAll(d.kids[y], nodes))
    && (forall z :: 0 <= z < |d.parent| ==> e.parent[z] == if z in nodes then Some(w) else d.parent[z])
  }

  /** Removing one more element that `s` does not hold changes nothing. */
  lemma WithoutAllAbsent(s: seq<nat>, xs: seq<nat>, c: nat)
    requires c !in s
    ensures WithoutAll(s, xs + [c]) == WithoutAll(s, xs)
  {
    WithoutAllSnoc(s, xs, c);
    WithoutAllDisjoint(WithoutAll(s, xs), [c]);
  }

  /** A node listed by no parent has none. */
  lemma UnlistedChild(d: Dom, c: nat, y: nat)
    requires WellFormed(d) && c < |d.kinds| && y < |d.kinds| && d.parent[c] != Some(y)
    ensures c !in d.kids[y]
  {
    if c in d.kids[y] {
      ListedChild(d, y, c);
    }
  }

  lemma MovedStep(d: Dom, e: Dom, w: nat, nodes: seq<nat>, c: nat)
    requires WellFormed(d) && WellFormed(e) && w < |d.kinds| && d.kids[w] == []
    requires Moved(d, e, w, nodes) && c !in nodes && c < w && c != d.root
    ensures Moved(d, AppendChild(e, w, c), w, nodes + [c])
  {
    var f := AppendChild(e, w, c);
    assert e.parent[c] == d.parent[c];
    assert c !in d.kids[w];
    AppendChildMoves(e, w, c);
    forall y | 0 <= y < |d.kids| && y != w
      ensures f.kids[y] == WithoutAll(d.kids[y], nodes + [c])
    {
      if d.parent[c] == Some(y) {
        WithoutAllSnoc(d.kids[y], nodes, c);
      } else {
        UnlistedChild(d, c, y);
        WithoutAllAbsent(d.kids[y], nodes, c);
      }
    }
  }

  /** Moving distinct nodes into a childless `w` one at a time reaches the
      state `Moved` describes. */
  lemma {:induction false} MovedIntoShape(d: Dom, w: nat, nodes: seq<nat>)
    requires WellFormed(d) && w < |d.kinds| && d.kids[w] == [] && Movable(d, w, nodes) && NoDup(nodes)
    ensures Moved(d, MovedInto(d, w, nodes), w, nodes)
  {
    if nodes == [] {
      forall y | 0 <= y < |d.kids| && y != w ensures d.kids[y] == WithoutAll(d.kids[y], []) {
        WithoutAllDisjoint(d.kids[y], []);
      }
    } else {
      var init, last := nodes[..|nodes| - 1], nodes[|nodes| - 1];
      assert nodes == init + [last];
      assert Movable(d, w, init);
      assert NoDup(init) by {
        forall i, j | 0 <= i < j < |init| ensures init[i] != init[j] {
          assert init[i] == nodes[i] && init[j] == nodes[j];
        }
      }
      assert last !in init by {
        forall k | 0 <= k < |init| ensures init[k] != last {
          assert init[k] == nodes[k];
        }
      }
      MovedIntoShape(d, w, init);
      MovedStep(d, MovedInto(d, w, init), w, init, last);
    }
  }

  /** No node of the list lies in the subtree of another. */
  predicate NotNested(d: Dom, nodes: seq<nat>)
    requires WellFormed(d)
  {
    forall x, z :: x in nodes && z in nodes && x != z && x < |d.kinds| ==> z !in DocOrder(d.kids, x)
  }

  /** A moved node that contains no other moved node keeps its subtree. */
  lemma MovedSubtreeIntact(d: Dom, e: Dom, w: nat, nodes: seq<nat>, x: nat)
    requires WellFormed(d) && WellFormed(e) && w < |d.kinds| && Moved(d, e, w, nodes)
    requires x in nodes && x < w && NotNested(d, nodes)
    ensures Subtree(e, x) == Subtree(d, x)
  {
    forall y | y in DocOrder(d.kids, x)
      ensures y < |e.kinds| && e.kinds[y] == d.kinds[y] && e.attrs[y] == d.attrs[y] && e.kids[y] == d.kids[y]
    {
      forall z | z in d.kids[y] ensures z !in nodes {
        var k :| 0 <= k < |d.kids[y]| && d.kids[y][k] == z;
        ChildSubtreeInside(d.kids, y, k);
        DescendantTransitive(d.kids, x, y, z);
        ListedChild(d, y, z);
      }
      WithoutAllDisjoint(d.kids[y], nodes);
    }
    SubtreeFrame(d, e, x);
  }

  // ------------------------------------------------------------ extraction

  /** Every match may be appended to a node created after the selection. */
  lemma SelectMovable(d: Dom, q: Query, attrs: map<string, string>)
    requires WellFormed(d)
    ensures Movable(NewElement(d, "div", attrs), |d.kinds|, Select(d, q))
  {
  }

  /** `extractMarkup`, as a function of the document: nothing when the
      query matches nothing; otherwise the matches moved, in document
      order, into a new wrapper `<div>`, and the wrapper's markup. */
  function ExtractMarkupSpec(d: Dom, q: Query, classname: string, save: Serializer): (r: Extracted)
    requires WellFormed(d)
    ensures WellFormed(r.dom)
  {
    var tags := Select(d, q);
    if tags == [] then Extracted("", d)
    else
      var w := |d.kinds|;
      var d1 := NewElement(d, "div", DivAttrs(classname));
      SelectMovable(d, q, DivAttrs(classname));
      var e := MovedInto(d1, w, tags);
      Extracted(ToHtml(e, Some(w), save), e)
  }

  method ExtractMarkup(doc: Document, q: Query, classname: string, save: Serializer) returns (markup: string)
    requires WellFormed(doc.dom)
    modifies doc
    ensures WellFormed(doc.dom)
    ensures Extracted(markup, doc.dom) == ExtractMarkupSpec(old(doc.dom), q, classname, save)
  {
    var tags := Select(doc.dom, q);
    if tags == [] {
      return "";
    }
    ghost var d := doc.dom;
    var w := CreateEmptyDiv(doc, classname);
    SelectMovable(d, q, DivAttrs(classname));
    MoveInto(doc, w, tags);
    markup := ToHtml(doc.dom, Some(w), save);
  }

  /** The `foreach` of `extractMarkup`: `append` each node to `w` in turn. */
  method MoveInto(doc: Document, w: nat, nodes: seq<nat>)
    requires WellFormed(doc.dom) && w < |doc.dom.kinds| && Movable(doc.dom, w, nodes)
    modifies doc
    ensures doc.dom == MovedInto(old(doc.dom), w, nodes)
  {
    ghost var d := doc.dom;
    for j := 0 to |nodes|
      invariant Movable(d, w, nodes[..j])
      invariant doc.dom == MovedInto(d, w, nodes[..j])
    {
      assert nodes[..j + 1][..j] == nodes[..j];
      doc.Append(w, nodes[j]);
    }
    assert nodes[..|nodes|] == nodes;
  }

  /** With matches, the wrapper is the last node, it holds exactly the
      matches in document order, each match has left its former parent for
      it, and no other node gained a child. */
  lemma ExtractMarkupMoves(d: Dom, q: Query, classname: string, save: Serializer)
    requires WellFormed(d) && Select(d, q) != []
    ensures var tags, e, w := Select(d, q), ExtractMarkupSpec(d, q, classname, save).dom, |d.kinds|;
            && |e.kinds| == w + 1 && e.kinds[..w] == d.kinds && e.kinds[w] == ElementNode("div")
            && e.attrs[..w] == d.attrs && e.attrs[w] == DivAttrs(classname) && e.parent[w] == None
            && e.kids[w] == tags
            && (forall x :: x in tags ==> e.parent[x] == Some(w))
            && (forall y :: 0 <= y < w ==> e.kids[y] == WithoutAll(d.kids[y], tags))
  {
    var tags, w := Select(d, q), |d.kinds|;
    var d1 := NewElement(d, "div", DivAttrs(classname));
    SelectMovable(d, q, DivAttrs(classname));
    MovedIntoShape(d1, w, tags);
    var e := MovedInto(d1, w, tags);
    assert e.parent[w] == None by {
      assert w !in tags;
    }
    forall y | 0 <= y < w ensures e.kids[y] == WithoutAll(d.kids[y], tags) {
      assert d1.kids[y] == d.kids[y];
    }
    forall x | x in tags ensures e.parent[x] == Some(w) {
      assert x < |d1.parent|;
    }
  }

  /** The wrapper's children come in the document order the matches had
      before they were moved. */
  lemma WrapperChildrenInDocumentOrder(d: Dom, q: Query, classname: string, save: Serializer, i: nat, j: nat)
    returns (a: nat, b: nat)
    requires WellFormed(d) && i < j < |Select(d, q)|
    ensures var e, w := ExtractMarkupSpec(d, q, classname, save).dom, |d.kinds|;
            && w < |e.kids| && j < |e.kids[w]| && a < b < |DocumentOrder(d)|
            && DocumentOrder(d)[a] == e.kids[w][i] && DocumentOrder(d)[b] == e.kids[w][j]
  {
    ExtractMarkupMoves(d, q, classname, save);
    a, b := SelectInDocumentOrder(d, q, i, j);
  }

  /** With matches that do not contain one another, the markup is that of
      a `<div>` with the wrapper's attributes whose children are the
      matches, each with its subtree as it was in the document. */
  lemma ExtractMarkupSerialises(d: Dom, q: Query, classname: string, save: Serializer)
    requires WellFormed(d) && NotNested(d, Select(d, q))
    ensures var tags := Select(d, q);
            ExtractMarkupSpec(d, q, classname, save).markup ==
            if tags == [] then ""
            else save.node(Tree(ElementNode("div"), DivAttrs(classname),
                                seq(|tags|, i requires 0 <= i < |tags| => Subtree(d, tags[i]))))
  {
    var tags := Select(d, q);
    if tags != [] {
      SelectMovable(d, q, DivAttrs(classname));
      WrapperTree(d, DivAttrs(classname), tags);
    }
  }

  /** The wrapper's tree after the moves: a `<div>` whose children are the
      moved nodes with their subtrees as they were. */
  lemma WrapperTree(d: Dom, attrs: map<string, string>, nodes: seq<nat>)
    requires WellFormed(d) && NoDup(nodes) && NotNested(d, nodes)
    requires Movable(NewElement(d, "div", attrs), |d.kinds|, nodes)
    ensures Subtree(MovedInto(NewElement(d, "div", attrs), |d.kinds|, nodes), |d.kinds|) ==
            Tree(ElementNode("div"), attrs, seq(|nodes|, i requires 0 <= i < |nodes| => Subtree(d, nodes[i])))
  {
    var w, d1 := |d.kinds|, NewElement(d, "div", attrs);
    MovedIntoShape(d1, w, nodes);
    var e := MovedInto(d1, w, nodes);
    MovedSubtreesIntact(d, attrs, nodes);
    assert e.kids[w] == nodes && e.kinds[w] == ElementNode("div") && e.attrs[w] == attrs;
  }

  lemma MovedSubtreesIntact(d: Dom, attrs: map<string, string>, nodes: seq<nat>)
    requires WellFormed(d) && NoDup(nodes) && NotNested(d, nodes)
    requires Movable(NewElement(d, "div", attrs), |d.kinds|, nodes)
    ensures forall i :: 0 <= i < |nodes| ==>
              Subtree(MovedInto(NewElement(d, "div", attrs), |d.kinds|, nodes), nodes[i]) == Subtree(d, nodes[i])
  {
    var w, d1 := |d.kinds|, NewElement(d, "div", attrs);
    MovedIntoShape(d1, w, nodes);
    var e := MovedInto(d1, w, nodes);
    assert NotNested(d1, nodes) by {
      forall x, z | x in nodes && z in nodes && x != z && x < |d1.kinds| ensures z !in DocOrder(d1.kids, x) {
        DocOrderFrame(d, d1, x);
      }
    }
    forall i | 0 <= i < |nodes| ensures Subtree(e, nodes[i]) == Subtree(d, nodes[i]) {
      MovedSubtreeIntact(d1, e, w, nodes, nodes[i]);
      NewElementSubtree(d, "div", attrs, nodes[i]);
    }
  }

  /** Adding a fresh node leaves every old traversal as it was. */
  lemma {:induction false} DocOrderFrame(d: Dom, d1: Dom, x: nat)
    requires WellFormed(d) && WellFormed(d1) && x < |d.kinds| && |d.kids| <= |d1.kids|
    requires forall y :: 0 <= y < |d.kids| ==> d1.kids[y] == d.kids[y]
    ensures DocOrder(d1.kids, x) == DocOrder(d.kids, x)
    decreases x, |d.kids[x]| + 1
  {
    KidsOrderFrame(d, d1, x, |d.kids[x]|);
  }

  lemma {:induction false} KidsOrderFrame(d: Dom, d1: Dom, x: nat, k: nat)
    requires WellFormed(d) && WellFormed(d1) && x < |d.kinds| && |d.kids| <= |d1.kids| && k <= |d.kids[x]|
    requires forall y :: 0 <= y < |d.kids| ==> d1.kids[y] == d.kids[y]
    ensures KidsOrder(d1.kids, x, k) == KidsOrder(d.kids, x, k)
    decreases x, k
  {
    if k > 0 {
      KidsOrderFrame(d, d1, x, k - 1);
      DocOrderFrame(d, d1, d.kids[x][k - 1]);
    }
  }

  /** The head selection never holds one match inside another: its
      matches are children of `<head>` elements, and their ancestors are
      no scripts or links. */
  lemma HeadAssetsNotNested(d: Dom)
    requires WellFormed(d)
    ensures NotNested(d, Select(d, HeadScriptsAndStyles))
  {
    var tags := Select(d, HeadScriptsAndStyles);
    forall x, z | x in tags && z in tags && x != z && x < |d.kinds| ensures z !in DocOrder(d.kids, x) {
      if z in DocOrder(d.kids, x) {
        DocOrderAncestor(d, x, z);
        AncestorOfHeadChild(d, x, z);
        assert false;
      }
    }
  }

  /** The strict ancestors of a child of `/html/head` are that `<head>`,
      that `<html>` and the document node. */
  lemma AncestorOfHeadChild(d: Dom, x: nat, z: nat)
    requires WellFormed(d) && InHtmlHead(d, z) && x != z && AncestorOrSelf(d, x, z)
    ensures x == d.parent[z].value || x == d.parent[d.parent[z].value].value || x == d.root
  {
    var h := d.parent[z].value;
    ParentAbove(d, z);
    var t := d.parent[h].value;
    ParentAbove(d, h);
    assert AncestorOrSelf(d, x, h);
    if x != h {
      assert AncestorOrSelf(d, x, t);
      if x != t {
        ParentAbove(d, t);
        assert AncestorOrSelf(d, x, d.root);
      }
    }
  }

  /** A script inside a `<header>` is never selected on account of that
      header: a header precedes everything in its subtree. So when every
      header of the document contains the script, it stays in place. */
  lemma EnclosingHeaderIsNotFollowing(d: Dom, x: nat)
    requires WellFormed(d)
    requires forall h :: h in DocumentOrder(d) && HasTag(d, h, "header") ==> h < |d.kinds| && x in DocOrder(d.kids, h)
    ensures x !in Select(d, PreHeaderScripts)
  {
    var order := DocumentOrder(d);
    if x in Select(d, PreHeaderScripts) {
      assert HasFollowingHeader(d, x);
      var i, j :| 0 <= i < j < |order| && order[i] == x &&
        HasTag(d, order[j], "header") && order[j] !in DocOrder(d.kids, x);
      var h := order[j];
      assert h in order;
      var i', j' := AncestorComesFirst(d.kids, d.root, h, x);
      DocOrderNoDup(d, d.root);
      assert false;
    }
  }

  // ------------------------------------------------------ header / footer

  /** `extractHeadScriptsAndStyles`. */
  method ExtractHeadScriptsAndStyles(doc: Document, save: Serializer) returns (markup: string)
    requires WellFormed(doc.dom)
    modifies doc
    ensures WellFormed(doc.dom)
    ensures Extracted(markup, doc.dom) == ExtractMarkupSpec(old(doc.dom), HeadScriptsAndStyles, HeadClass, save)
  {
    markup := ExtractMarkup(doc, HeadScriptsAndStyles, HeadClass, save);
  }

  /** `extractPreHeaderScripts`. */
  method ExtractPreHeaderScripts(doc: Document, save: Serializer) returns (markup: string)
    requires WellFormed(doc.dom)
    modifies doc
    ensures WellFormed(doc.dom)
    ensures Extracted(markup, doc.dom) == ExtractMarkupSpec(old(doc.dom), PreHeaderScripts, PreHeaderClass, save)
  {
    markup := ExtractMarkup(doc, PreHeaderScripts, PreHeaderClass, save);
  }

  /** `extractPostFooterScripts`. */
  method ExtractPostFooterScripts(doc: Document, save: Serializer) returns (markup: string)
    requires WellFormed(doc.dom)
    modifies doc
    ensures WellFormed(doc.dom)
    ensures Extracted(markup, doc.dom) == ExtractMarkupSpec(old(doc.dom), PostFooterScripts, PostFooterClass, save)
  {
    markup := ExtractMarkup(doc, PostFooterScripts, PostFooterClass, save);
  }

  /** `prepareHeader`, as a function of the document: the first header is
      serialised first, then the head assets and the pre-header scripts
      are extracted, in that order, from the document as it then is. */
  function PrepareHeaderSpec(d: Dom, save: Serializer): (r: Extracted)
    requires WellFormed(d)
    ensures WellFormed(r.dom)
  {
    var headers := ElementsByTagName(d, "header");
    if headers == [] then Extracted("", d)
    else
      assert headers[0] in headers;
      var header := ToHtml(d, Some(headers[0]), save);
      var head := ExtractMarkupSpec(d, HeadScriptsAndStyles, HeadClass, save);
      var pre := ExtractMarkupSpec(head.dom, PreHeaderScripts, PreHeaderClass, save);
      Extracted(Trim(head.markup + Eol + pre.markup + Eol + header), pre.dom)
  }

  method PrepareHeader(doc: Document, save: Serializer) returns (markup: string)
    requires WellFormed(doc.dom)
    modifies doc
    ensures Extracted(markup, doc.dom) == PrepareHeaderSpec(old(doc.dom), save)
  {
    var headers := ElementsByTagName(doc.dom, "header");
    if headers == [] {
      return "";
    }
    assert headers[0] in headers;
    var header := ToHtml(doc.dom, Some(headers[0]), save);
    var headScriptsAndStyles := ExtractHeadScriptsAndStyles(doc, save);
    var otherScripts := ExtractPreHeaderScripts(doc, save);
    markup := Trim(headScriptsAndStyles + Eol + otherScripts + Eol + header);
  }

  /** `prepareFooter`, as a function of the document. */
  function PrepareFooterSpec(d: Dom, save: Serializer): (r: Extracted)
    requires WellFormed(d)
    ensures WellFormed(r.dom)
  {
    var footers := ElementsByTagName(d, "footer");
    if footers == [] then Extracted("", d)
    else
      assert footers[0] in footers;
      var footer := ToHtml(d, Some(footers[0]), save);
      var post := ExtractMarkupSpec(d, PostFooterScripts, PostFooterClass, save);
      Extracted(Trim(footer + Eol + post.markup), post.dom)
  }

  method PrepareFooter(doc: Document, save: Serializer) returns (markup: string)
    requires WellFormed(doc.dom)
    modifies doc
    ensures Extracted(markup, doc.dom) == PrepareFooterSpec(old(doc.dom), save)
  {
    var footers := ElementsByTagName(doc.dom, "footer");
    if footers == [] {
      return "";
    }
    assert footers[0] in footers;
    var footer := ToHtml(doc.dom, Some(footers[0]), save);
    var otherScripts := ExtractPostFooterScripts(doc, save);
    markup := Trim(footer + Eol + otherScripts);
  }

  /** An extraction whose query matches nothing yields no markup, not
      even an empty wrapper, and leaves the document alone. */
  lemma ExtractMarkupNone(d: Dom, q: Query, classname: string, save: Serializer)
    requires WellFormed(d) && Select(d, q) == []
    ensures ExtractMarkupSpec(d, q, classname, save) == Extracted("", d)
  {
  }

  /** Without a `<header>` the header fragment is empty and the document
      is left alone. */
  lemma PrepareHeaderWithoutHeader(d: Dom, save: Serializer)
    requires WellFormed(d)
    requires forall n :: n in DocumentOrder(d) ==> !HasTag(d, n, "header")
    ensures PrepareHeaderSpec(d, save) == Extracted("", d)
  {
    NoMemberEmpty(ElementsByTagName(d, "header"));
  }

  /** With a `<header>` the fragment is the trimmed join of the two
      wrappers and the first header's markup, taken before any move. */
  lemma PrepareHeaderJoins(d: Dom, save: Serializer)
    requires WellFormed(d) && ElementsByTagName(d, "header") != []
    ensures var h := ElementsByTagName(d, "header")[0];
            var head := ExtractMarkupSpec(d, HeadScriptsAndStyles, HeadClass, save);
            var pre := ExtractMarkupSpec(head.dom, PreHeaderScripts, PreHeaderClass, save);
            && IsFirstWithTag(d, h, "header")
            && PrepareHeaderSpec(d, save).markup == Trim(head.markup + Eol + pre.markup + Eol + save.node(Subtree(d, h)))
  {
    FirstElementByTagName(d, "header");
  }

  /** When neither selection matches, no empty wrapper appears: the
      fragment is just the trimmed first header. */
  lemma PrepareHeaderOnlyHeader(d: Dom, save: Serializer)
    requires WellFormed(d) && ElementsByTagName(d, "header") != []
    requires Select(d, HeadScriptsAndStyles) == [] && Select(d, PreHeaderScripts) == []
    ensures PrepareHeaderSpec(d, save).markup == Trim(save.node(Subtree(d, ElementsByTagName(d, "header")[0])))
  {
    var header := save.node(Subtree(d, ElementsByTagName(d, "header")[0]));
    PrepareHeaderJoins(d, save);
    var head := ExtractMarkupSpec(d, HeadScriptsAndStyles, HeadClass, save);
    ExtractMarkupNone(d, HeadScriptsAndStyles, HeadClass, save);
    assert head == Extracted("", d);
    var pre := ExtractMarkupSpec(head.dom, PreHeaderScripts, PreHeaderClass, save);
    ExtractMarkupNone(d, PreHeaderScripts, PreHeaderClass, save);
    assert pre == Extracted("", d);
    TrimAfterEmptyParts(head.markup, pre.markup, header);
  }

  lemma TrimAfterEmptyParts(a: string, b: string, x: string)
    requires a == [] && b == []
    ensures Trim(a + Eol + b + Eol + x) == Trim(x)
  {
    assert a + Eol + b + Eol + x == "\n\n" + x;
    TrimDropsLeadingTrimChars("\n\n", x);
  }

  /** Without a `<footer>` the footer fragment is empty and the document
      is left alone. */
  lemma PrepareFooterWithoutFooter(d: Dom, save: Serializer)
    requires WellFormed(d)
    requires forall n :: n in DocumentOrder(d) ==> !HasTag(d, n, "footer")
    ensures PrepareFooterSpec(d, save) == Extracted("", d)
  {
    NoMemberEmpty(ElementsByTagName(d, "footer"));
  }

  /** With a `<footer>` the fragment is the trimmed join of the first
      footer's markup and the post-footer wrapper. */
  lemma PrepareFooterJoins(d: Dom, save: Serializer)
    requires WellFormed(d) && ElementsByTagName(d, "footer") != []
    ensures var f := ElementsByTagName(d, "footer")[0];
            && IsFirstWithTag(d, f, "footer")
            && PrepareFooterSpec(d, save).markup ==
               Trim(save.node(Subtree(d, f)) + Eol + ExtractMarkupSpec(d, PostFooterScripts, PostFooterClass, save).markup)
  {
    FirstElementByTagName(d, "footer");
  }

  /** Without post-footer scripts the fragment is just the trimmed first
      footer. */
  lemma PrepareFooterOnlyFooter(d: Dom, save: Serializer)
    requires WellFormed(d) && ElementsByTagName(d, "footer") != []
    requires Select(d, PostFooterScripts) == []
    ensures PrepareFooterSpec(d, save).markup == Trim(save.node(Subtree(d, ElementsByTagName(d, "footer")[0])))
  {
    var footer := save.node(Subtree(d, ElementsByTagName(d, "footer")[0]));
    ExtractMarkupNone(d, PostFooterScripts, PostFooterClass, save);
    assert PrepareFooterSpec(d, save).markup == Trim(footer + Eol + []);
    assert footer + Eol + [] == footer + "\n";
    TrimDropsTrailingTrimChars(footer, "\n");
  }
}
