/** The parsed document both components work on: a node arena with
    element, text and document nodes, attributes, ordered child lists and
    parent links. Node ids are numbered so that every child has a smaller
    id than its parent (a post-order numbering of the parsed tree); every
    change the core makes keeps that numbering, because nodes are only ever
    moved into a freshly created element, which has the largest id. */
module HtmlDom {

  datatype Option<T> = None | Some(value: T)

  /** What a node is. Comments and other non-element leaves are text nodes
      here: the core never looks inside them. */
  datatype Kind = DocumentNode | ElementNode(tag: string) | TextNode(data: string)

  /** The arena: per node id its kind, its attributes (empty for non-elements),
      its children in order and its parent; `root` is the document node. */
  datatype Dom = Dom(
    kinds: seq<Kind>,
    attrs: seq<map<string, string>>,
    kids: seq<seq<nat>>,
    parent: seq<Option<nat>>,
    root: nat)

  /** A node with its whole subtree, as a value: what a serialiser sees. */
  datatype Tree = Tree(kind: Kind, attrs: map<string, string>, children: seq<Tree>)

  predicate NoDup<T(==)>(s: seq<T>) {
    forall i, j :: 0 <= i < j < |s| ==> s[i] != s[j]
  }

  predicate ChildrenBelow(kids: seq<seq<nat>>) {
    forall n, i :: 0 <= n < |kids| && 0 <= i < |kids[n]| ==> kids[n][i] < n
  }

  /** The arena is a forest: child lists and parent links agree, no child is
      listed twice, and the root is a parentless document node. */
  predicate WellFormed(d: Dom) {
    && |d.attrs| == |d.kinds| && |d.kids| == |d.kinds| && |d.parent| == |d.kinds|
    && d.root < |d.kinds| && d.kinds[d.root] == DocumentNode && d.parent[d.root] == None
    && ChildrenBelow(d.kids)
    && (forall n, i :: 0 <= n < |d.kids| && 0 <= i < |d.kids[n]| ==> d.parent[d.kids[n][i]] == Some(n))
    && (forall n :: 0 <= n < |d.kids| ==> NoDup(d.kids[n]))
    && (forall n :: 0 <= n < |d.parent| && d.parent[n].Some? ==>
          d.parent[n].value < |d.kids| && n in d.kids[d.parent[n].value])
  }

  // ------------------------------------------------------- document order

  /** Document order of the subtree at `n`: pre-order, parents before
      children, siblings left to right. */
  function DocOrder(kids: seq<seq<nat>>, n: nat): (r: seq<nat>)
    requires ChildrenBelow(kids) && n < |kids|
    ensures |r| >= 1 && r[0] == n
    ensures forall m :: m in r ==> m <= n
    decreases n, |kids[n]| + 1
  {
    [n] + KidsOrder(kids, n, |kids[n]|)
  }

  /** Document order of the subtrees of the first `k` children of `n`. */
  function KidsOrder(kids: seq<seq<nat>>, n: nat, k: nat): (r: seq<nat>)
    requires ChildrenBelow(kids) && n < |kids| && k <= |kids[n]|
    ensures forall m :: m in r ==> m < n
    decreases n, k
  {
    if k == 0 then [] else KidsOrder(kids, n, k - 1) + DocOrder(kids, kids[n][k - 1])
  }

  /** Document order of the whole document. */
  function DocumentOrder(d: Dom): seq<nat>
    requires WellFormed(d)
  {
    DocOrder(d.kids, d.root)
  }

  lemma {:induction false} KidsOrderMember(kids: seq<seq<nat>>, n: nat, k: nat, m: nat)
    requires ChildrenBelow(kids) && n < |kids| && k <= |kids[n]|
    requires m in KidsOrder(kids, n, k)
    ensures exists j :: 0 <= j < k && m in DocOrder(kids, kids[n][j])
  {
    if m !in DocOrder(kids, kids[n][k - 1]) {
      KidsOrderMember(kids, n, k - 1, m);
    }
  }

  lemma {:induction false} KidsOrderContains(kids: seq<seq<nat>>, n: nat, k: nat, j: nat)
    requires ChildrenBelow(kids) && n < |kids| && j < k <= |kids[n]|
    ensures forall m :: m in DocOrder(kids, kids[n][j]) ==> m in KidsOrder(kids, n, k)
  {
    if j < k - 1 {
      KidsOrderContains(kids, n, k - 1, j);
    }
  }

  /** A child's subtree lies inside its parent's. */
  lemma ChildSubtreeInside(kids: seq<seq<nat>>, n: nat, j: nat)
    requires ChildrenBelow(kids) && n < |kids| && j < |kids[n]|
    ensures forall m :: m in DocOrder(kids, kids[n][j]) ==> m in DocOrder(kids, n)
  {
    KidsOrderContains(kids, n, |kids[n]|, j);
  }

  /** Descendant-or-self is transitive. */
  lemma {:induction false} DescendantTransitive(kids: seq<seq<nat>>, a: nat, x: nat, y: nat)
    requires ChildrenBelow(kids) && a < |kids|
    requires x in DocOrder(kids, a)
    requires x < |kids| && y in DocOrder(kids, x)
    ensures y in DocOrder(kids, a)
    decreases a
  {
    if x != a {
      KidsOrderMember(kids, a, |kids[a]|, x);
      var j :| 0 <= j < |kids[a]| && x in DocOrder(kids, kids[a][j]);
      DescendantTransitive(kids, kids[a][j], x, y);
      ChildSubtreeInside(kids, a, j);
    }
  }

  lemma ParentAbove(d: Dom, m: nat)
    requires WellFormed(d) && m < |d.kinds| && d.parent[m].Some?
    ensures m < d.parent[m].value < |d.kinds|
  {
    var p := d.parent[m].value;
    var i :| 0 <= i < |d.kids[p]| && d.kids[p][i] == m;
  }

  /** `a` is `m` or one of its ancestors, following parent links. */
  predicate AncestorOrSelf(d: Dom, a: nat, m: nat)
    requires WellFormed(d) && m < |d.kinds|
    decreases |d.kinds| - m
  {
    m == a || (d.parent[m].Some? && (ParentAbove(d, m); AncestorOrSelf(d, a, d.parent[m].value)))
  }

  lemma {:induction false} AncestorIsAbove(d: Dom, a: nat, m: nat)
    requires WellFormed(d) && m < |d.kinds| && AncestorOrSelf(d, a, m)
    ensures m <= a
    decreases |d.kinds| - m
  {
    if m != a {
      ParentAbove(d, m);
      AncestorIsAbove(d, a, d.parent[m].value);
    }
  }

  lemma {:induction false} AncestorThroughParent(d: Dom, c: nat, m: nat)
    requires WellFormed(d) && m < |d.kinds| && c < |d.kinds| && d.parent[c].Some?
    requires AncestorOrSelf(d, c, m)
    ensures AncestorOrSelf(d, d.parent[c].value, m)
    decreases |d.kinds| - m
  {
    ParentAbove(d, c);
    if m != c {
      ParentAbove(d, m);
      AncestorThroughParent(d, c, d.parent[m].value);
    }
  }

  /** Two distinct siblings are never both ancestors-or-self of one node. */
  lemma {:induction false} SiblingAncestorsEqual(d: Dom, c1: nat, c2: nat, m: nat)
    requires WellFormed(d) && m < |d.kinds| && c1 < |d.kinds| && c2 < |d.kinds|
    requires d.parent[c1].Some? && d.parent[c1] == d.parent[c2]
    requires AncestorOrSelf(d, c1, m) && AncestorOrSelf(d, c2, m)
    ensures c1 == c2
    decreases |d.kinds| - m
  {
    ParentAbove(d, c1);
    ParentAbove(d, c2);
    if m == c1 {
      if c2 != c1 {
        AncestorIsAbove(d, c2, d.parent[c1].value);
      }
    } else if m == c2 {
      AncestorIsAbove(d, c1, d.parent[c2].value);
    } else {
      ParentAbove(d, m);
      SiblingAncestorsEqual(d, c1, c2, d.parent[m].value);
    }
  }

  /** Every node in the document order of `n` has `n` on its parent chain. */
  lemma {:induction false} DocOrderAncestor(d: Dom, n: nat, m: nat)
    requires WellFormed(d) && n < |d.kinds| && m in DocOrder(d.kids, n)
    ensures m < |d.kinds| && AncestorOrSelf(d, n, m)
    decreases n
  {
    if m != n {
      KidsOrderMember(d.kids, n, |d.kids[n]|, m);
      var j :| 0 <= j < |d.kids[n]| && m in DocOrder(d.kids, d.kids[n][j]);
      var c := d.kids[n][j];
      DocOrderAncestor(d, c, m);
      AncestorThroughParent(d, c, m);
    }
  }

  lemma NoDupConcat<T>(a: seq<T>, b: seq<T>)
    requires NoDup(a) && NoDup(b)
    requires forall x :: x in a ==> x !in b
    ensures NoDup(a + b)
  {
    forall i, j | 0 <= i < j < |a + b| ensures (a + b)[i] != (a + b)[j] {
      if i < |a| && j >= |a| {
        assert (a + b)[i] in a;
        assert (a + b)[j] == b[j - |a|];
      }
    }
  }

  lemma {:induction false} KidsOrderNoDup(d: Dom, n: nat, k: nat)
    requires WellFormed(d) && n < |d.kinds| && k <= |d.kids[n]|
    requires forall j :: 0 <= j < k ==> NoDup(DocOrder(d.kids, d.kids[n][j]))
    ensures NoDup(KidsOrder(d.kids, n, k))
  {
    if k > 0 {
      KidsOrderNoDup(d, n, k - 1);
      var c := d.kids[n][k - 1];
      forall m | m in KidsOrder(d.kids, n, k - 1) ensures m !in DocOrder(d.kids, c) {
        KidsOrderMember(d.kids, n, k - 1, m);
        var j :| 0 <= j < k - 1 && m in DocOrder(d.kids, d.kids[n][j]);
        if m in DocOrder(d.kids, c) {
          DocOrderAncestor(d, d.kids[n][j], m);
          DocOrderAncestor(d, c, m);
          SiblingAncestorsEqual(d, d.kids[n][j], c, m);
          assert false;
        }
      }
      NoDupConcat(KidsOrder(d.kids, n, k - 1), DocOrder(d.kids, c));
    }
  }

  /** Document order visits every node at most once. */
  lemma {:induction false} DocOrderNoDup(d: Dom, n: nat)
    requires WellFormed(d) && n < |d.kinds|
    ensures NoDup(DocOrder(d.kids, n))
    decreases n
  {
    forall j | 0 <= j < |d.kids[n]| ensures NoDup(DocOrder(d.kids, d.kids[n][j])) {
      DocOrderNoDup(d, d.kids[n][j]);
    }
    KidsOrderNoDup(d, n, |d.kids[n]|);
    NoDupConcat([n], KidsOrder(d.kids, n, |d.kids[n]|));
  }

  /** The traversal of the first `j` children is a prefix of that of the
      first `k`. */
  lemma {:induction false} KidsOrderPrefix(kids: seq<seq<nat>>, n: nat, j: nat, k: nat)
    requires ChildrenBelow(kids) && n < |kids| && j <= k <= |kids[n]|
    ensures KidsOrder(kids, n, j) <= KidsOrder(kids, n, k)
    decreases k
  {
    if j < k {
      KidsOrderPrefix(kids, n, j, k - 1);
      var a, b := KidsOrder(kids, n, j), KidsOrder(kids, n, k - 1);
      assert b <= KidsOrder(kids, n, k);
      assert KidsOrder(kids, n, k)[..|a|] == b[..|a|];
    }
  }

  /** The traversal of a child's subtree sits at a fixed offset inside its
      parent's traversal. */
  lemma ChildOffset(kids: seq<seq<nat>>, n: nat, m: nat)
    requires ChildrenBelow(kids) && n < |kids| && m < |kids[n]|
    ensures var c, o := kids[n][m], 1 + |KidsOrder(kids, n, m)|;
            o + |DocOrder(kids, c)| <= |DocOrder(kids, n)| &&
            forall t :: 0 <= t < |DocOrder(kids, c)| ==> DocOrder(kids, n)[o + t] == DocOrder(kids, c)[t]
  {
    KidsOrderPrefix(kids, n, m + 1, |kids[n]|);
    var before, sub := KidsOrder(kids, n, m), DocOrder(kids, kids[n][m]);
    assert KidsOrder(kids, n, m + 1) == before + sub;
    EmbeddedAfterHead(DocOrder(kids, n), n, KidsOrder(kids, n, |kids[n]|), before, sub);
  }

  /** If `before + sub` is a prefix of `all`, then `sub` sits at offset
      `1 + |before|` in `[n] + all`. */
  lemma EmbeddedAfterHead(order: seq<nat>, n: nat, all: seq<nat>, before: seq<nat>, sub: seq<nat>)
    requires order == [n] + all && before + sub <= all
    ensures 1 + |before| + |sub| <= |order|
    ensures forall t :: 0 <= t < |sub| ==> order[1 + |before| + t] == sub[t]
  {
    forall t | 0 <= t < |sub| ensures order[1 + |before| + t] == sub[t] {
      assert order[1 + |before| + t] == all[|before| + t] == (before + sub)[|before| + t];
    }
  }

  /** A strict descendant of `n` lies in the subtree of one of its children. */
  lemma ChildContaining(kids: seq<seq<nat>>, n: nat, a: nat) returns (m: nat)
    requires ChildrenBelow(kids) && n < |kids| && a in DocOrder(kids, n) && a != n
    ensures m < |kids[n]| && a in DocOrder(kids, kids[n][m])
  {
    KidsOrderMember(kids, n, |kids[n]|, a);
    m :| 0 <= m < |kids[n]| && a in DocOrder(kids, kids[n][m]);
  }

  /** In document order a node comes no later than any node of its subtree. */
  lemma {:induction false} AncestorComesFirst(kids: seq<seq<nat>>, n: nat, a: nat, x: nat) returns (i: nat, j: nat)
    requires ChildrenBelow(kids) && n < |kids| && a in DocOrder(kids, n)
    requires a < |kids| && x in DocOrder(kids, a)
    ensures i <= j < |DocOrder(kids, n)| && DocOrder(kids, n)[i] == a && DocOrder(kids, n)[j] == x
    decreases n
  {
    var order := DocOrder(kids, n);
    if a == n {
      j :| 0 <= j < |order| && order[j] == x;
      i := 0;
    } else {
      var m := ChildContaining(kids, n, a);
      var c := kids[n][m];
      var sub := DocOrder(kids, c);
      var i', j' := AncestorComesFirst(kids, c, a, x);
      ChildOffset(kids, n, m);
      var o := 1 + |KidsOrder(kids, n, m)|;
      i, j := o + i', o + j';
      assert order[i] == sub[i'] && order[j] == sub[j'];
    }
  }

  // -------------------------------------------------------------- queries

  function Filter(s: seq<nat>, p: nat -> bool): (r: seq<nat>)
    ensures |r| <= |s|
    ensures forall x :: x in r <==> x in s && p(x)
    ensures NoDup(s) ==> NoDup(r)
  {
    if s == [] then []
    else
      var rest := Filter(s[1..], p);
      assert NoDup(s) ==> s[0] !in s[1..];
      (if p(s[0]) then [s[0]] else []) + rest
  }

  /** The first element of a filter is the earliest element satisfying it. */
  lemma {:induction false} FilterFirst(s: seq<nat>, p: nat -> bool)
    requires Filter(s, p) != []
    ensures exists k :: 0 <= k < |s| && s[k] == Filter(s, p)[0] && p(s[k]) &&
              forall j :: 0 <= j < k ==> !p(s[j])
  {
    if !p(s[0]) {
      assert Filter(s, p) == Filter(s[1..], p);
      FilterFirst(s[1..], p);
      var k :| 0 <= k < |s[1..]| && s[1..][k] == Filter(s[1..], p)[0] && p(s[1..][k]) &&
                forall j :: 0 <= j < k ==> !p(s[1..][j]);
      assert s[k + 1] == s[1..][k];
      forall j | 0 <= j < k + 1 ensures !p(s[j]) {
        if j > 0 {
          assert s[j] == s[1..][j - 1];
        }
      }
    } else {
      assert s[0] == Filter(s, p)[0];
    }
  }

  /** A filter keeps the order of its input: the matches at `i < j` come
      from positions `a < b` of `s`. */
  lemma {:induction false} FilterKeepsOrder(s: seq<nat>, p: nat -> bool, i: nat, j: nat) returns (a: nat, b: nat)
    requires i < j < |Filter(s, p)|
    ensures a < b < |s| && s[a] == Filter(s, p)[i] && s[b] == Filter(s, p)[j]
  {
    var t := s[1..];
    FilterHead(s, p);
    if p(s[0]) {
      if i == 0 {
        var k := FilterIndex(t, p, j - 1);
        a, b := 0, k + 1;
      } else {
        var a', b' := FilterKeepsOrder(t, p, i - 1, j - 1);
        a, b := a' + 1, b' + 1;
      }
    } else {
      var a', b' := FilterKeepsOrder(t, p, i, j);
      a, b := a' + 1, b' + 1;
    }
  }

  lemma FilterHead(s: seq<nat>, p: nat -> bool)
    requires s != []
    ensures Filter(s, p) == (if p(s[0]) then [s[0]] else []) + Filter(s[1..], p)
  {
  }

  /** Every match of a filter sits at some position of its input. */
  lemma FilterIndex(s: seq<nat>, p: nat -> bool, i: nat) returns (k: nat)
    requires i < |Filter(s, p)|
    ensures k < |s| && s[k] == Filter(s, p)[i]
  {
    assert Filter(s, p)[i] in Filter(s, p);
    k :| k < |s| && s[k] == Filter(s, p)[i];
  }

  predicate IsElement(d: Dom, n: nat) {
    n < |d.kinds| && d.kinds[n].ElementNode?
  }

  predicate HasTag(d: Dom, n: nat, tag: string) {
    n < |d.kinds| && d.kinds[n] == ElementNode(tag)
  }

  /** An element reachable from the document node: what the descendant axis of an XPath path from the root ranges over. */
  predicate IsDocElement(d: Dom, n: nat)
    requires WellFormed(d)
  {
    IsElement(d, n) && n in DocumentOrder(d)
  }

  /** `DOMDocument::getElementsByTagName`: the elements with that tag name,
      in document order. */
  function ElementsByTagName(d: Dom, tag: string): (r: seq<nat>)
    requires WellFormed(d)
    ensures NoDup(r)
    ensures forall n :: n in r <==> n in DocumentOrder(d) && HasTag(d, n, tag)
    ensures forall i :: 0 <= i < |r| ==> HasTag(d, r[i], tag)
  {
    DocOrderNoDup(d, d.root);
    var r := Filter(DocumentOrder(d), TagTest(d, tag));
    assert forall i :: 0 <= i < |r| ==> HasTag(d, r[i], tag) by {
      forall i | 0 <= i < |r| ensures HasTag(d, r[i], tag) {
        assert r[i] in r;
      }
    }
    r
  }

  /** `getElementsByTagName` lists its elements in document order. */
  lemma ElementsInDocumentOrder(d: Dom, tag: string, i: nat, j: nat) returns (a: nat, b: nat)
    requires WellFormed(d) && i < j < |ElementsByTagName(d, tag)|
    ensures a < b < |DocumentOrder(d)|
    ensures DocumentOrder(d)[a] == ElementsByTagName(d, tag)[i]
    ensures DocumentOrder(d)[b] == ElementsByTagName(d, tag)[j]
  {
    a, b := FilterKeepsOrder(DocumentOrder(d), TagTest(d, tag), i, j);
  }


  /** The element test of a tag-name query, as a value to filter by. */
  function TagTest(d: Dom, tag: string): nat -> bool {
    (n: nat) => HasTag(d, n, tag)
  }

  /** `n` is the first element named `tag` in document order. */
  predicate IsFirstWithTag(d: Dom, n: nat, tag: string)
    requires WellFormed(d)
  {
    var order := DocumentOrder(d);
    exists i :: 0 <= i < |order| && order[i] == n && HasTag(d, n, tag) &&
      forall k :: 0 <= k < i ==> !HasTag(d, order[k], tag)
  }

  /** `item(0)` of `getElementsByTagName` is the first such element. */
  lemma FirstElementByTagName(d: Dom, tag: string)
    requires WellFormed(d) && ElementsByTagName(d, tag) != []
    ensures IsFirstWithTag(d, ElementsByTagName(d, tag)[0], tag)
  {
    FilterFirst(DocumentOrder(d), TagTest(d, tag));
  }

  /** A list without members is empty. */
  lemma NoMemberEmpty(s: seq<nat>)
    ensures (forall x :: x !in s) ==> s == []
  {
    if s != [] {
      assert s[0] in s;
    }
  }

  /** `->item(0)` of a node list: the first node, or null. */
  function First(s: seq<nat>): (r: Option<nat>)
    ensures r.Some? <==> s != []
    ensures r.Some? ==> r.value in s && r.value == s[0]
  {
    if s == [] then None else Some(s[0])
  }

  /** A node with its subtree, for serialisation. */
  function Subtree(d: Dom, n: nat): (t: Tree)
    requires WellFormed(d) && n < |d.kinds|
    decreases n
  {
    Tree(d.kinds[n], d.attrs[n],
         seq(|d.kids[n]|, i requires 0 <= i < |d.kids[n]| => Subtree(d, d.kids[n][i])))
  }

  /** A subtree depends only on the nodes in it. */
  lemma {:induction false} SubtreeFrame(d: Dom, e: Dom, n: nat)
    requires WellFormed(d) && WellFormed(e) && n < |d.kinds| && n < |e.kinds|
    requires forall x :: x in DocOrder(d.kids, n) ==>
               x < |e.kinds| && e.kinds[x] == d.kinds[x] && e.attrs[x] == d.attrs[x] && e.kids[x] == d.kids[x]
    ensures Subtree(e, n) == Subtree(d, n)
    decreases n
  {
    forall i | 0 <= i < |d.kids[n]| ensures Subtree(e, d.kids[n][i]) == Subtree(d, d.kids[n][i]) {
      var c := d.kids[n][i];
      ChildSubtreeInside(d.kids, n, i);
      SubtreeFrame(d, e, c);
    }
  }

  /** `saveHtml`, left abstract: the whole document, or one node with its
      subtree. */
  datatype Serializer = Serializer(document: Tree -> string, node: Tree -> string)

  /** `toHtml($dom, $node)`: the node's markup, or the document's when the
      node is null. */
  function ToHtml(d: Dom, node: Option<nat>, save: Serializer): string
    requires WellFormed(d) && (node.Some? ==> node.value < |d.kinds|)
  {
    if node.Some? then save.node(Subtree(d, node.value)) else save.document(Subtree(d, d.root))
  }

  /** `toHtml` reads only the subtree it serialises: the node's, or the
      document root's when the node is null. */
  lemma ToHtmlFrame(d: Dom, e: Dom, node: Option<nat>, save: Serializer)
    requires WellFormed(d) && WellFormed(e) && e.root == d.root
    requires node.Some? ==> node.value < |d.kinds| && node.value < |e.kinds|
    requires var n := if node.Some? then node.value else d.root;
             forall x :: x in DocOrder(d.kids, n) ==>
               x < |e.kinds| && e.kinds[x] == d.kinds[x] && e.attrs[x] == d.attrs[x] && e.kids[x] == d.kids[x]
    ensures ToHtml(e, node, save) == ToHtml(d, node, save)
  {
    SubtreeFrame(d, e, if node.Some? then node.value else d.root);
  }

  // ----------------------------------------------------------- mutations

  /** The list without any element of `xs`, order kept. */
  function WithoutAll(s: seq<nat>, xs: seq<nat>): (r: seq<nat>)
    ensures |r| <= |s|
    ensures forall y :: y in r <==> y in s && y !in xs
    ensures NoDup(s) ==> NoDup(r)
  {
    if s == [] then []
    else
      var rest := WithoutAll(s[1..], xs);
      assert NoDup(s) ==> s[0] !in s[1..];
      (if s[0] in xs then [] else [s[0]]) + rest
  }

  lemma {:induction false} WithoutAllSnoc(s: seq<nat>, xs: seq<nat>, c: nat)
    ensures WithoutAll(WithoutAll(s, xs), [c]) == WithoutAll(s, xs + [c])
  {
    if s != [] {
      var h, t := s[0], s[1..];
      WithoutAllSnoc(t, xs, c);
      var rest := WithoutAll(t, xs);
      assert WithoutAll(s, xs) == (if h in xs then [] else [h]) + rest;
      assert WithoutAll(s, xs + [c]) == (if h in xs + [c] then [] else [h]) + WithoutAll(t, xs + [c]);
      if h !in xs {
        var a := [h] + rest;
        assert a[0] == h && a[1..] == rest;
        assert WithoutAll(a, [c]) == (if h in [c] then [] else [h]) + WithoutAll(rest, [c]);
        assert (h in xs + [c]) == (h in [c]);
      } else {
        assert [] + rest == rest;
        assert h in xs + [c];
      }
    }
  }

  lemma {:induction false} WithoutAllDisjoint(s: seq<nat>, xs: seq<nat>)
    requires forall y :: y in s ==> y !in xs
    ensures WithoutAll(s, xs) == s
  {
    if s != [] {
      WithoutAllDisjoint(s[1..], xs);
      assert s == [s[0]] + s[1..];
    }
  }

  lemma WithoutAllHead(s: seq<nat>)
    requires s != [] && NoDup(s)
    ensures WithoutAll(s, [s[0]]) == s[1..]
  {
    assert s[0] !in s[1..] by {
      forall k | 0 <= k < |s| - 1 ensures s[1..][k] != s[0] {
        assert s[1..][k] == s[k + 1];
      }
    }
    WithoutAllDisjoint(s[1..], [s[0]]);
  }

  /** `setAttribute`. */
  function SetAttr(d: Dom, n: nat, name: string, value: string): (r: Dom)
    requires WellFormed(d) && n < |d.kinds|
    ensures WellFormed(r)
  {
    d.(attrs := d.attrs[n := d.attrs[n][name := value]])
  }

  /** `setAttribute` gives `name` the value `value` on node `n`. It adds the
      attribute if it is missing and changes nothing else. */
  lemma SetAttrChanges(d: Dom, n: nat, name: string, value: string)
    requires WellFormed(d) && n < |d.kinds|
    ensures var r := SetAttr(d, n, name, value);
            && r.kinds == d.kinds && r.kids == d.kids && r.parent == d.parent && r.root == d.root
            && |r.attrs| == |d.attrs| && r.attrs[n].Keys == d.attrs[n].Keys + {name} && r.attrs[n][name] == value
            && (forall k :: k in d.attrs[n] && k != name ==> r.attrs[n][k] == d.attrs[n][k])
            && (forall m :: 0 <= m < |d.attrs| && m != n ==> r.attrs[m] == d.attrs[m])
  {
  }

  /** Setting an attribute to the value it already has changes nothing. */
  lemma SetAttrCurrentValue(d: Dom, n: nat, name: string)
    requires WellFormed(d) && n < |d.kinds| && name in d.attrs[n]
    ensures SetAttr(d, n, name, d.attrs[n][name]) == d
  {
    assert d.attrs[n][name := d.attrs[n][name]] == d.attrs[n];
    assert d.attrs[n := d.attrs[n]] == d.attrs;
  }

  /** Listing `x` as a child of `p` makes `x` a smaller id whose parent is `p`. */
  lemma ListedChild(d: Dom, p: nat, x: nat)
    requires WellFormed(d) && p < |d.kinds| && x in d.kids[p]
    ensures x < p && d.parent[x] == Some(p)
  {
    var i :| 0 <= i < |d.kids[p]| && d.kids[p][i] == x;
  }

  /** `removeChild`: `c` leaves `p`'s child list and has no parent. */
  function DetachChild(d: Dom, p: nat, c: nat): (r: Dom)
    requires WellFormed(d) && p < |d.kinds| && c in d.kids[p]
    ensures WellFormed(r)
  {
    var r := d.(kids := d.kids[p := WithoutAll(d.kids[p], [c])], parent := d.parent[c := None]);
    ListedChild(d, p, c);
    assert ChildrenBelow(r.kids) && forall n, i :: 0 <= n < |r.kids| && 0 <= i < |r.kids[n]| ==> r.parent[r.kids[n][i]] == Some(n) by {
      forall n, i | 0 <= n < |r.kids| && 0 <= i < |r.kids[n]|
        ensures r.kids[n][i] < n && r.parent[r.kids[n][i]] == Some(n)
      {
        var x := r.kids[n][i];
        if n == p {
          assert x in r.kids[p];
          ListedChild(d, p, x);
        } else {
          assert x == d.kids[n][i];
          assert d.parent[x] == Some(n);
        }
      }
    }
    assert forall n :: 0 <= n < |r.parent| && r.parent[n].Some? ==>
             r.parent[n].value < |r.kids| && n in r.kids[r.parent[n].value] by {
      forall n | 0 <= n < |r.parent| && r.parent[n].Some?
        ensures r.parent[n].value < |r.kids| && n in r.kids[r.parent[n].value]
      {
        assert n != c && d.parent[n] == r.parent[n];
      }
    }
    r
  }

  /** `removeChild` takes exactly `c` out of `p`'s child list and clears
      its parent; nothing else changes. */
  lemma DetachChildRemoves(d: Dom, p: nat, c: nat)
    requires WellFormed(d) && p < |d.kinds| && c in d.kids[p]
    ensures var r := DetachChild(d, p, c);
            && r.kinds == d.kinds && r.attrs == d.attrs && r.root == d.root
            && r.kids == d.kids[p := WithoutAll(d.kids[p], [c])]
            && r.parent == d.parent[c := None]
            && c !in r.kids[p]
  {
  }

  /** Making the parentless node `c` the last child of `p`. */
  function Attach(e: Dom, p: nat, c: nat): (r: Dom)
    requires WellFormed(e) && p < |e.kinds| && c < p && c != e.root && e.parent[c] == None
    ensures WellFormed(r)
  {
    assert c !in e.kids[p] by {
      if c in e.kids[p] {
        ListedChild(e, p, c);
      }
    }
    var r := e.(kids := e.kids[p := e.kids[p] + [c]], parent := e.parent[c := Some(p)]);
    assert NoDup(r.kids[p]) by {
      NoDupConcat(e.kids[p], [c]);
    }
    assert ChildrenBelow(r.kids) && forall n, i :: 0 <= n < |r.kids| && 0 <= i < |r.kids[n]| ==> r.parent[r.kids[n][i]] == Some(n) by {
      forall n, i | 0 <= n < |r.kids| && 0 <= i < |r.kids[n]|
        ensures r.kids[n][i] < n && r.parent[r.kids[n][i]] == Some(n)
      {
        var x := r.kids[n][i];
        if n == p && i == |e.kids[p]| {
          assert x == c;
        } else {
          assert x == e.kids[n][i];
          assert e.parent[x] == Some(n);
        }
      }
    }
    assert forall n :: 0 <= n < |r.parent| && r.parent[n].Some? ==>
             r.parent[n].value < |r.kids| && n in r.kids[r.parent[n].value] by {
      forall n | 0 <= n < |r.parent| && r.parent[n].Some?
        ensures r.parent[n].value < |r.kids| && n in r.kids[r.parent[n].value]
      {
        if n == c {
          assert r.kids[p][|e.kids[p]|] == c;
        } else {
          var q := e.parent[n].value;
          assert r.parent[n] == e.parent[n];
          assert n in e.kids[q];
          if q == p {
            assert e.kids[p] <= r.kids[p];
          }
        }
      }
    }
    r
  }

  /** `append` / `appendChild` of an existing node: `c` is detached from
      its parent, if any, and becomes the last child of `p`. */
  function AppendChild(d: Dom, p: nat, c: nat): (r: Dom)
    requires WellFormed(d) && p < |d.kinds| && c < p && c != d.root
    ensures WellFormed(r)
    ensures r.kinds == d.kinds && r.attrs == d.attrs && r.root == d.root
  {
    if d.parent[c].Some? then
      assert c in d.kids[d.parent[c].value];
      Attach(DetachChild(d, d.parent[c].value, c), p, c)
    else
      Attach(d, p, c)
  }

  /** `append` moves: `c` comes last among `p`'s children, leaves the child
      list of its former parent, and no other child list changes. */
  lemma AppendChildMoves(d: Dom, p: nat, c: nat)
    requires WellFormed(d) && p < |d.kinds| && c < p && c != d.root
    ensures var r := AppendChild(d, p, c);
            && r.parent == d.parent[c := Some(p)]
            && r.kids[p] == (if d.parent[c] == Some(p) then WithoutAll(d.kids[p], [c]) else d.kids[p]) + [c]
            && forall y :: 0 <= y < |d.kids| && y != p ==>
                 r.kids[y] == if d.parent[c] == Some(y) then WithoutAll(d.kids[y], [c]) else d.kids[y]
  {
    if d.parent[c].Some? {
      var q := d.parent[c].value;
      assert c in d.kids[q];
      var e := DetachChild(d, q, c);
      assert e.kids == d.kids[q := WithoutAll(d.kids[q], [c])];
      assert AppendChild(d, p, c).kids == e.kids[p := e.kids[p] + [c]];
    }
  }

  /** `createElement`: a new parentless, childless element with the
      largest id. */
  function NewElement(d: Dom, tag: string, attrs: map<string, string>): (r: Dom)
    requires WellFormed(d)
    ensures WellFormed(r)
  {
    var r := Dom(d.kinds + [ElementNode(tag)], d.attrs + [attrs], d.kids + [[]], d.parent + [None], d.root);
    assert ChildrenBelow(r.kids) && forall n, i :: 0 <= n < |r.kids| && 0 <= i < |r.kids[n]| ==> r.parent[r.kids[n][i]] == Some(n) by {
      forall n, i | 0 <= n < |r.kids| && 0 <= i < |r.kids[n]|
        ensures r.kids[n][i] < n && r.parent[r.kids[n][i]] == Some(n)
      {
        assert n < |d.kids| && r.kids[n] == d.kids[n];
        assert r.parent[d.kids[n][i]] == d.parent[d.kids[n][i]];
      }
    }
    assert forall n :: 0 <= n < |r.kids| ==> NoDup(r.kids[n]) by {
      forall n | 0 <= n < |r.kids| ensures NoDup(r.kids[n]) {
        if n < |d.kids| {
          assert r.kids[n] == d.kids[n];
        }
      }
    }
    assert forall n :: 0 <= n < |r.parent| && r.parent[n].Some? ==>
             r.parent[n].value < |r.kids| && n in r.kids[r.parent[n].value] by {
      forall n | 0 <= n < |r.parent| && r.parent[n].Some?
        ensures r.parent[n].value < |r.kids| && n in r.kids[r.parent[n].value]
      {
        assert n < |d.parent| && r.parent[n] == d.parent[n];
        assert r.kids[d.parent[n].value] == d.kids[d.parent[n].value];
      }
    }
    r
  }

  /** A created element is detached: its node shows up in no subtree that
      existed before. */
  lemma NewElementSubtree(d: Dom, tag: string, attrs: map<string, string>, x: nat)
    requires WellFormed(d) && x < |d.kinds|
    ensures Subtree(NewElement(d, tag, attrs), x) == Subtree(d, x)
  {
    var d1 := NewElement(d, tag, attrs);
    forall y | y in DocOrder(d.kids, x)
      ensures y < |d1.kinds| && d1.kinds[y] == d.kinds[y] && d1.attrs[y] == d.attrs[y] && d1.kids[y] == d.kids[y]
    {
    }
    SubtreeFrame(d, d1, x);
  }

  /** `createElement` adds one parentless, childless element as the last
      node and changes the markup of no existing node, nor that of the
      document. */
  lemma CreateElementKeepsMarkup(d: Dom, tag: string, attrs: map<string, string>, save: Serializer)
    requires WellFormed(d)
    ensures var r, n := NewElement(d, tag, attrs), |d.kinds|;
            && |r.kinds| == n + 1 && r.kinds[..n] == d.kinds && r.kinds[n] == ElementNode(tag)
            && r.attrs[..n] == d.attrs && r.attrs[n] == attrs && r.kids[n] == [] && r.parent[n] == None
            && ToHtml(r, None, save) == ToHtml(d, None, save)
            && forall x :: 0 <= x < n ==> ToHtml(r, Some(x), save) == ToHtml(d, Some(x), save)
  {
    var r, n := NewElement(d, tag, attrs), |d.kinds|;
    assert r.kinds[..n] == d.kinds;
    assert r.attrs[..n] == d.attrs;
    NewElementSubtree(d, tag, attrs, d.root);
    forall x | 0 <= x < n ensures ToHtml(r, Some(x), save) == ToHtml(d, Some(x), save) {
      NewElementSubtree(d, tag, attrs, x);
    }
  }

  /** A `DOMDocument`: the arena behind a reference, changed in place. */
  class Document {
    var dom: Dom

    constructor (d: Dom)
      requires WellFormed(d)
      ensures dom == d
    {
      dom := d;
    }

    method SetAttribute(n: nat, name: string, value: string)
      requires WellFormed(dom) && n < |dom.kinds|
      modifies this
      ensures dom == SetAttr(old(dom), n, name, value)
    {
      dom := SetAttr(dom, n, name, value);
    }

    method RemoveChild(p: nat, c: nat)
      requires WellFormed(dom) && p < |dom.kinds| && c in dom.kids[p]
      modifies this
      ensures dom == DetachChild(old(dom), p, c)
    {
      dom := DetachChild(dom, p, c);
    }

    method Append(p: nat, c: nat)
      requires WellFormed(dom) && p < |dom.kinds| && c < p && c != dom.root
      modifies this
      ensures dom == AppendChild(old(dom), p, c)
    {
      dom := AppendChild(dom, p, c);
    }

    method CreateElement(tag: string) returns (n: nat)
      requires WellFormed(dom)
      modifies this
      ensures n == |old(dom).kinds| && dom == NewElement(old(dom), tag, map[])
    {
      n := |dom.kinds|;
      dom := NewElement(dom, tag, map[]);
    }
  }
}
