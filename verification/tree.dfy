/** The document tree: element, text and other nodes, addressed by index paths
    that count every child node (text and comments included), as `childNodes` does. */
module Tree {
  import opened Results
  import Whitespace

  /** A position in the tree: the child index taken at each level, root first. */
  type Path = seq<nat>

  /** `Comment` stands for every node that is neither an element nor text
      (comments, processing instructions); the editor only ever skips them.
      An `id` of "" means the element has no id attribute. */
  datatype Node =
    | Element(tag: string, classes: seq<string>, id: string, children: seq<Node>)
    | Text(data: string)
    | Comment(data: string)

  /** The class the editor uses to mark empty elements. */
  const EmptyMarker: string := "dm_empty"

  /** The tag of every element the editor creates without being told one. */
  const DefaultTag: string := "div"

  /** `childNodes`: an element's children; every other node has none. */
  function ChildNodes(n: Node): seq<Node> {
    if n.Element? then n.children else []
  }

  predicate Marked(n: Node) {
    n.Element? && EmptyMarker in n.classes
  }

  /** `classList.add`: appends the class unless it is already present. */
  function AddClass(classes: seq<string>, c: string): (r: seq<string>)
    ensures c in r
    ensures forall x :: x in r <==> x in classes || x == c
    ensures c in classes ==> r == classes
    ensures |r| > 0
  {
    if c in classes then classes else classes + [c]
  }

  /** `classList.remove`: drops every occurrence of the class, keeping the others in order. */
  function RemoveClass(classes: seq<string>, c: string): (r: seq<string>)
    ensures c !in r
    ensures forall x :: x in r <==> x in classes && x != c
    ensures c !in classes ==> r == classes
    ensures |r| <= |classes|
  {
    if |classes| == 0 then []
    else if classes[0] == c then RemoveClass(classes[1..], c)
    else [classes[0]] + RemoveClass(classes[1..], c)
  }

  // ---------------------------------------------------------------------------
  // Paths

  function Parent(p: Path): Path
    requires p != []
  {
    p[..|p| - 1]
  }

  function Last(p: Path): nat
    requires p != []
  {
    p[|p| - 1]
  }

  predicate IsPrefix(p: Path, q: Path) {
    |p| <= |q| && q[..|p|] == p
  }

  /** Two paths of which neither lies on the other's way from the root. */
  predicate Apart(p: Path, q: Path) {
    !IsPrefix(p, q) && !IsPrefix(q, p)
  }

  /** `childNodes[i]`, or no node when `i` is out of range. */
  function ChildAt(n: Node, i: nat): (r: Option<Node>)
    ensures r.Some? <==> i < |ChildNodes(n)|
    ensures r.Some? ==> r.value == ChildNodes(n)[i]
  {
    if n.Element? && i < |n.children| then Some(n.children[i]) else None
  }

  /** The node a path leads to from `n`, or no node when some step is out of range. */
  function NodeAt(n: Node, p: Path): Option<Node>
    decreases |p|
  {
    if p == [] then Some(n)
    else match ChildAt(n, p[0])
      case Some(c) => NodeAt(c, p[1..])
      case None => None
  }

  predicate IsElementAt(n: Node, p: Path) {
    NodeAt(n, p).Some? && NodeAt(n, p).value.Element?
  }

  /** The tree `n` with the node at `p` replaced by `m` (unchanged when `p` leads nowhere). */
  function ReplaceAt(n: Node, p: Path, m: Node): Node
    decreases |p|
  {
    if p == [] then m
    else if n.Element? && p[0] < |n.children| then
      n.(children := n.children[p[0] := ReplaceAt(n.children[p[0]], p[1..], m)])
    else n
  }

  // ---------------------------------------------------------------------------
  // Lemmas about paths

  /** Following `p` then `q` is following `p + q`. */
  lemma {:induction false} NodeAtConcat(n: Node, p: Path, q: Path)
    ensures NodeAt(n, p + q) ==
      (match NodeAt(n, p) case Some(x) => NodeAt(x, q) case None => None)
    decreases |p|
  {
    if p == [] {
      assert p + q == q;
    } else {
      assert (p + q)[0] == p[0];
      assert (p + q)[1..] == p[1..] + q;
      match ChildAt(n, p[0])
      case Some(c) => NodeAtConcat(c, p[1..], q);
      case None =>
    }
  }

  /** A path into an element is a step to a child and the rest of the path from there. */
  lemma NodeAtStep(n: Node, q: Path)
    requires n.Element? && q != [] && q[0] < |n.children|
    ensures NodeAt(n, q) == NodeAt(n.children[q[0]], q[1..])
  {
  }

  /** One step below a node reached by `p`. */
  lemma NodeAtChild(n: Node, p: Path, i: nat)
    ensures NodeAt(n, p).Some? ==> NodeAt(n, p + [i]) == ChildAt(NodeAt(n, p).value, i)
    ensures NodeAt(n, p).None? ==> NodeAt(n, p + [i]).None?
  {
    NodeAtConcat(n, p, [i]);
    if NodeAt(n, p).Some? {
      var x := NodeAt(n, p).value;
      assert [i][1..] == [];
      assert NodeAt(x, [i]) == ChildAt(x, i);
    }
  }

  /** Every node but the root sits at position `Last(p)` among its parent's children,
      and its parent is an element. */
  lemma ParentOf(n: Node, p: Path)
    requires p != [] && NodeAt(n, p).Some?
    ensures IsElementAt(n, Parent(p))
    ensures Last(p) < |NodeAt(n, Parent(p)).value.children|
    ensures NodeAt(n, Parent(p)).value.children[Last(p)] == NodeAt(n, p).value
  {
    var q, i := Parent(p), Last(p);
    assert p == q + [i];
    NodeAtChild(n, q, i);
    assert NodeAt(n, q).Some?;
    var x := NodeAt(n, q).value;
    assert ChildAt(x, i) == NodeAt(n, p);
  }

  /** A child path of an element leads to that child. */
  lemma ChildOf(n: Node, p: Path, i: nat)
    requires IsElementAt(n, p) && i < |NodeAt(n, p).value.children|
    ensures NodeAt(n, p + [i]) == Some(NodeAt(n, p).value.children[i])
    ensures p + [i] != [] && Parent(p + [i]) == p && Last(p + [i]) == i
  {
    NodeAtChild(n, p, i);
    assert (p + [i])[..|p|] == p;
  }

  /** Below the replaced position one finds the replacement's own subtree. */
  lemma {:induction false} ReplaceAtBelow(n: Node, p: Path, m: Node, q: Path)
    requires NodeAt(n, p).Some?
    ensures NodeAt(ReplaceAt(n, p, m), p + q) == NodeAt(m, q)
    decreases |p|
  {
    if p == [] {
      assert p + q == q;
    } else {
      assert (p + q)[0] == p[0];
      assert (p + q)[1..] == p[1..] + q;
      ReplaceAtBelow(n.children[p[0]], p[1..], m, q);
    }
  }

  /** The replaced position holds the replacement. */
  lemma ReplaceAtHere(n: Node, p: Path, m: Node)
    requires NodeAt(n, p).Some?
    ensures NodeAt(ReplaceAt(n, p, m), p) == Some(m)
  {
    ReplaceAtBelow(n, p, m, []);
    assert p + [] == p;
  }

  /** Nothing else changes: a position neither above nor below the replaced one
      holds the same node as before. */
  lemma {:induction false} ReplaceAtApart(n: Node, p: Path, m: Node, q: Path)
    requires NodeAt(n, p).Some? && Apart(p, q)
    ensures NodeAt(ReplaceAt(n, p, m), q) == NodeAt(n, q)
    decreases |p|
  {
    assert p != [] && q != [];
    var cs := n.children;
    var cs' := cs[p[0] := ReplaceAt(cs[p[0]], p[1..], m)];
    if q[0] != p[0] {
      if q[0] < |cs| {
        assert cs'[q[0]] == cs[q[0]];
      }
    } else {
      PrefixTail(p, q);
      PrefixTail(q, p);
      ReplaceAtApart(cs[p[0]], p[1..], m, q[1..]);
    }
  }

  /** Putting back the node that is already there changes nothing. */
  lemma {:induction false} ReplaceAtSame(n: Node, p: Path)
    requires NodeAt(n, p).Some?
    ensures ReplaceAt(n, p, NodeAt(n, p).value) == n
    decreases |p|
  {
    if p != [] {
      ReplaceAtSame(n.children[p[0]], p[1..]);
      assert n.children[p[0] := n.children[p[0]]] == n.children;
    }
  }

  /** A second replacement at the same position overrides the first. */
  lemma {:induction false} ReplaceAtTwice(n: Node, p: Path, m: Node, m': Node)
    requires NodeAt(n, p).Some?
    ensures ReplaceAt(ReplaceAt(n, p, m), p, m') == ReplaceAt(n, p, m')
    decreases |p|
  {
    if p != [] {
      ReplaceAtTwice(n.children[p[0]], p[1..], m, m');
    }
  }

  /** Paths that start alike are prefixes of one another exactly when their tails are. */
  lemma PrefixTail(p: Path, q: Path)
    requires p != [] && q != [] && p[0] == q[0]
    ensures IsPrefix(p, q) <==> IsPrefix(p[1..], q[1..])
  {
    if |p| <= |q| {
      assert q[..|p|] == [q[0]] + q[1..][..|p| - 1];
      assert p == [p[0]] + p[1..];
    }
  }

  /** Along the way to the replaced position every element keeps its tag, classes,
      id and number of children. */
  lemma {:induction false} ReplaceAtAbove(n: Node, p: Path, m: Node, k: nat)
    requires NodeAt(n, p).Some? && k < |p|
    ensures IsElementAt(n, p[..k]) && IsElementAt(ReplaceAt(n, p, m), p[..k])
    ensures var a, b := NodeAt(n, p[..k]).value, NodeAt(ReplaceAt(n, p, m), p[..k]).value;
      a.tag == b.tag && a.classes == b.classes && a.id == b.id && |a.children| == |b.children|
    decreases |p|
  {
    if k > 0 {
      ReplaceAtAbove(n.children[p[0]], p[1..], m, k - 1);
      assert p[..k] == [p[0]] + p[1..][..k - 1];
    }
  }

  /** Both positions hold elements with the same tag, classes, id and number of children. */
  ghost predicate SameShell(a: Option<Node>, b: Option<Node>) {
    && a.Some? && b.Some? && a.value.Element? && b.value.Element?
    && a.value.tag == b.value.tag && a.value.classes == b.value.classes
    && a.value.id == b.value.id && |a.value.children| == |b.value.children|
  }

  /** `b` differs from `a` only in the subtree at `p`: every position apart from `p`
      holds the same node, and every element on the way down to `p` keeps its tag,
      classes, id and number of children. */
  ghost predicate ChangedOnlyAt(a: Node, b: Node, p: Path) {
    && (forall q :: Apart(p, q) ==> NodeAt(b, q) == NodeAt(a, q))
    && (forall k :: 0 <= k < |p| ==> SameShell(NodeAt(a, p[..k]), NodeAt(b, p[..k])))
  }

  lemma ReplaceAtChangesOnly(n: Node, p: Path, m: Node)
    requires NodeAt(n, p).Some?
    ensures ChangedOnlyAt(n, ReplaceAt(n, p, m), p)
  {
    forall q | Apart(p, q)
      ensures NodeAt(ReplaceAt(n, p, m), q) == NodeAt(n, q)
    {
      ReplaceAtApart(n, p, m, q);
    }
    forall k | 0 <= k < |p|
      ensures SameShell(NodeAt(n, p[..k]), NodeAt(ReplaceAt(n, p, m), p[..k]))
    {
      ReplaceAtAbove(n, p, m, k);
    }
  }

  // ---------------------------------------------------------------------------
  // Document-wide ids

  /** The ids of the whole subtree, each counted once per element carrying it. */
  function IdBag(n: Node): multiset<string> {
    if n.Element? then OwnId(n) + ForestIdBag(n.children) else multiset{}
  }

  /** The node's own id attribute, if it has one. */
  function OwnId(n: Node): multiset<string> {
    if n.Element? && n.id != "" then multiset{n.id} else multiset{}
  }

  function ForestIdBag(cs: seq<Node>): multiset<string> {
    if cs == [] then multiset{} else IdBag(cs[0]) + ForestIdBag(cs[1..])
  }

  /** `getElementById(id)` finds an element: some element in the document carries `id`. */
  predicate IdInUse(n: Node, id: string) {
    id in IdBag(n)
  }

  /** No id is carried by two elements. */
  predicate UniqueIds(n: Node) {
    forall x | x in IdBag(n) :: IdBag(n)[x] <= 1
  }

  lemma {:induction false} ForestIdBagConcat(a: seq<Node>, b: seq<Node>)
    ensures ForestIdBag(a + b) == ForestIdBag(a) + ForestIdBag(b)
  {
    if a != [] {
      assert (a + b)[1..] == a[1..] + b;
      ForestIdBagConcat(a[1..], b);
    } else {
      assert a + b == b;
    }
  }

  lemma ForestIdBagSingle(x: Node)
    ensures ForestIdBag([x]) == IdBag(x)
  {
    assert [x][1..] == [];
  }

  /** The ids of a child list with one entry inserted. */
  lemma ForestIdBagInsert(cs: seq<Node>, i: nat, x: Node)
    requires i <= |cs|
    ensures ForestIdBag(cs[..i] + [x] + cs[i..]) == ForestIdBag(cs) + IdBag(x)
  {
    assert cs == cs[..i] + cs[i..];
    ForestIdBagConcat(cs[..i] + [x], cs[i..]);
    ForestIdBagConcat(cs[..i], [x]);
    ForestIdBagConcat(cs[..i], cs[i..]);
    ForestIdBagSingle(x);
  }

  /** The ids of a child list with one entry removed. */
  lemma ForestIdBagRemove(cs: seq<Node>, i: nat)
    requires i < |cs|
    ensures ForestIdBag(cs[..i] + cs[i + 1..]) + IdBag(cs[i]) == ForestIdBag(cs)
  {
    var rest := cs[..i] + cs[i + 1..];
    var whole := rest[..i] + [cs[i]] + rest[i..];
    ForestIdBagInsert(rest, i, cs[i]);
    assert ForestIdBag(whole) == ForestIdBag(rest) + IdBag(cs[i]);
    PutBack(cs, i);
  }

  /** Taking out entry `i` and putting it back gives the list again. */
  lemma PutBack(cs: seq<Node>, i: nat)
    requires i < |cs|
    ensures var rest := cs[..i] + cs[i + 1..]; rest[..i] + [cs[i]] + rest[i..] == cs
  {
    var rest := cs[..i] + cs[i + 1..];
    assert rest[..i] == cs[..i] && rest[i..] == cs[i + 1..];
  }

  /** The ids of a child list with one entry exchanged. */
  lemma ForestIdBagUpdate(cs: seq<Node>, i: nat, x: Node)
    requires i < |cs|
    ensures ForestIdBag(cs[i := x]) + IdBag(cs[i]) == ForestIdBag(cs) + IdBag(x)
  {
    assert cs == cs[..i] + [cs[i]] + cs[i + 1..];
    assert cs[i := x] == cs[..i] + [x] + cs[i + 1..];
    ForestIdBagConcat(cs[..i] + [cs[i]], cs[i + 1..]);
    ForestIdBagConcat(cs[..i], [cs[i]]);
    ForestIdBagConcat(cs[..i] + [x], cs[i + 1..]);
    ForestIdBagConcat(cs[..i], [x]);
    ForestIdBagSingle(cs[i]);
    ForestIdBagSingle(x);
  }

  /** The ids of an element with one child exchanged. */
  lemma IdBagChildUpdate(n: Node, i: nat, c: Node)
    requires n.Element? && i < |n.children|
    ensures IdBag(n.(children := n.children[i := c])) + IdBag(n.children[i]) == IdBag(n) + IdBag(c)
  {
    var cs := n.children;
    ForestIdBagUpdate(cs, i, c);
    var A, B := ForestIdBag(cs[i := c]), ForestIdBag(cs);
    forall x
      ensures (OwnId(n) + A + IdBag(cs[i]))[x] == (OwnId(n) + B + IdBag(c))[x]
    {
      assert (A + IdBag(cs[i]))[x] == (B + IdBag(c))[x];
    }
  }

  /** Cancellation for the bookkeeping of two nested exchanges. */
  lemma BagExchange(a: multiset<string>, b: multiset<string>, x: multiset<string>,
                    y: multiset<string>, o: multiset<string>, m: multiset<string>)
    requires a + x == b + y && y + o == x + m
    ensures a + o == b + m
  {
    forall k
      ensures (a + o)[k] == (b + m)[k]
    {
      assert (a + x)[k] == (b + y)[k];
      assert (y + o)[k] == (x + m)[k];
    }
  }

  /** Replacing a subtree trades its ids for the replacement's. */
  lemma {:induction false} IdBagReplace(n: Node, p: Path, m: Node)
    requires NodeAt(n, p).Some?
    ensures IdBag(ReplaceAt(n, p, m)) + IdBag(NodeAt(n, p).value) == IdBag(n) + IdBag(m)
    decreases |p|
  {
    if p != [] {
      var cs := n.children;
      var i := p[0];
      var old_ := NodeAt(n, p).value;
      assert NodeAt(cs[i], p[1..]) == Some(old_);
      var c' := ReplaceAt(cs[i], p[1..], m);
      IdBagReplace(cs[i], p[1..], m);
      IdBagChildUpdate(n, i, c');
      assert ReplaceAt(n, p, m) == n.(children := cs[i := c']);
      BagExchange(IdBag(ReplaceAt(n, p, m)), IdBag(n), IdBag(cs[i]), IdBag(c'), IdBag(old_), IdBag(m));
    }
  }

  /** The ids of a subtree are ids of the whole tree. */
  lemma {:induction false} IdBagAt(n: Node, p: Path)
    requires NodeAt(n, p).Some?
    ensures IdBag(NodeAt(n, p).value) <= IdBag(n)
    decreases |p|
  {
    if p != [] {
      var cs, i := n.children, p[0];
      IdBagAt(cs[i], p[1..]);
      ForestIdBagRemove(cs, i);
    }
  }

  /** A replacement that brings no id the replaced subtree did not have keeps ids unique. */
  lemma UniqueAfterReplace(n: Node, p: Path, m: Node)
    requires NodeAt(n, p).Some? && UniqueIds(n)
    requires IdBag(m) <= IdBag(NodeAt(n, p).value)
    ensures UniqueIds(ReplaceAt(n, p, m))
    ensures IdBag(ReplaceAt(n, p, m)) <= IdBag(n)
  {
    IdBagReplace(n, p, m);
    var r := IdBag(ReplaceAt(n, p, m));
    var o := IdBag(NodeAt(n, p).value);
    var L, R := r + o, IdBag(n) + IdBag(m);
    forall x
      ensures r[x] <= IdBag(n)[x]
    {
      assert L[x] == R[x];
      assert IdBag(m)[x] <= o[x];
    }
  }

  // ---------------------------------------------------------------------------
  // Emptiness

  /** A child that does not make its parent non-empty: other node kinds, and text
      that is whitespace only. */
  predicate Ignorable(c: Node) {
    c.Comment? || (c.Text? && Whitespace.Blank(c.data))
  }

  /** No element child and no text child with anything but whitespace. */
  predicate Empty(n: Node) {
    forall i :: 0 <= i < |ChildNodes(n)| ==> Ignorable(ChildNodes(n)[i])
  }

  /** The editor's `isEmpty`: scans the children in order, stopping at the first
      element or non-blank text. */
  method IsEmpty(n: Node) returns (empty: bool)
    ensures empty <==> Empty(n)
    ensures n.Element? && (exists i :: 0 <= i < |n.children| && n.children[i].Element?) ==> !empty
  {
    var cs := ChildNodes(n);
    var k := 0;
    empty := true;
    while k < |cs|
      invariant 0 <= k <= |cs|
      invariant forall j :: 0 <= j < k ==> Ignorable(cs[j])
    {
      var child := cs[k];
      if child.Element? {
        empty := false;
        break;
      } else if child.Text? {
        if !Whitespace.Blank(child.data) {
          empty := false;
          break;
        }
      }
      k := k + 1;
    }
  }

  /** Every element of the subtree that is empty carries the empty marker. */
  predicate Covered(n: Node) {
    n.Element? ==>
      && (Empty(n) ==> Marked(n))
      && forall i :: 0 <= i < |n.children| ==> Covered(n.children[i])
  }

  lemma {:induction false} CoveredAt(n: Node, p: Path)
    requires Covered(n) && NodeAt(n, p).Some?
    ensures Covered(NodeAt(n, p).value)
    decreases |p|
  {
    if p != [] {
      CoveredAt(n.children[p[0]], p[1..]);
    }
  }

  /** Putting a covered element where an element was keeps the whole tree covered:
      the ancestors keep an element child, so none of them becomes empty. */
  lemma {:induction false} CoveredReplace(n: Node, p: Path, m: Node)
    requires Covered(n) && IsElementAt(n, p)
    requires m.Element? && Covered(m)
    ensures Covered(ReplaceAt(n, p, m))
    decreases |p|
  {
    if p != [] {
      var cs := n.children;
      var i := p[0];
      var c' := ReplaceAt(cs[i], p[1..], m);
      CoveredReplace(cs[i], p[1..], m);
      var n' := ReplaceAt(n, p, m);
      assert n'.children == cs[i := c'];
      assert c'.Element? by {
        if p[1..] != [] {
          assert cs[i].Element?;
        }
      }
      assert ChildNodes(n')[i] == c';
      assert !Ignorable(ChildNodes(n')[i]);
    }
  }
}
