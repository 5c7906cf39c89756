/** The editor's TreeWalker, created over the root with `whatToShow` = SHOW_ELEMENT
    and no filter: it sees elements only, and text and other nodes are skipped
    (section 6.2, "Interface TreeWalker", of the WHATWG DOM Standard).

    The walker's moves are written here over index paths, and the two linear moves
    are proved to step through an independent reference: the pre-order list of
    every element path of the subtree. */
module Walker {
  import opened Results
  import opened Tree

  // ---------------------------------------------------------------------------
  // Element siblings

  /** The first element among `cs[from..]`: `firstChild` when `from` is 0,
      `nextSibling` of child `i` when `from` is `i + 1`. */
  function FirstElementFrom(cs: seq<Node>, from: nat): (r: Option<nat>)
    ensures r.Some? ==> from <= r.value < |cs| && cs[r.value].Element?
    ensures r.Some? ==> forall k :: from <= k < r.value ==> !cs[k].Element?
    ensures r.None? ==> forall k :: from <= k < |cs| ==> !cs[k].Element?
    decreases |cs| - from
  {
    if from >= |cs| then None
    else if cs[from].Element? then Some(from)
    else FirstElementFrom(cs, from + 1)
  }

  /** The last element among `cs[..upto]`: `lastChild` when `upto` is `|cs|`,
      `previousSibling` of child `i` when `upto` is `i`. */
  function LastElementBefore(cs: seq<Node>, upto: nat): (r: Option<nat>)
    requires upto <= |cs|
    ensures r.Some? ==> r.value < upto && cs[r.value].Element?
    ensures r.Some? ==> forall k :: r.value < k < upto ==> !cs[k].Element?
    ensures r.None? ==> forall k :: 0 <= k < upto ==> !cs[k].Element?
    decreases upto
  {
    if upto == 0 then None
    else if cs[upto - 1].Element? then Some(upto - 1)
    else LastElementBefore(cs, upto - 1)
  }

  /** A child index as a one-step path. */
  function AsChild(j: Option<nat>): Option<Path> {
    match j
    case Some(k) => Some([k])
    case None => None
  }

  // ---------------------------------------------------------------------------
  // The reference order

  function Prefixed(i: nat, ps: seq<Path>): seq<Path> {
    seq(|ps|, k requires 0 <= k < |ps| => [i] + ps[k])
  }

  /** Every element of the subtree, as a path from `n`, in document (pre-)order. */
  function PreOrder(n: Node): seq<Path>
    decreases n
  {
    if n.Element? then [[]] + Forest(n.children, 0) else []
  }

  /** The pre-order of the subtrees `cs[from..]`, each path starting with its child index. */
  function Forest(cs: seq<Node>, from: nat): seq<Path>
    decreases cs, |cs| - from
  {
    if from >= |cs| then []
    else Prefixed(from, PreOrder(cs[from])) + Forest(cs, from + 1)
  }

  // ---------------------------------------------------------------------------
  // The walker's moves

  /** `nextNode()` from the element at `p`: its first element child if it has one,
      else the next element sibling of it or of the nearest ancestor that has one,
      never leaving `n`. No node when `p` is the last element. */
  function NextNode(n: Node, p: Path): (r: Option<Path>)
    ensures r.Some? ==> IsElementAt(n, r.value)
    decreases |p|, 1
  {
    if !n.Element? then None
    else if p == [] then
      match FirstElementFrom(n.children, 0)
      case Some(k) => NodeAtStep(n, [k]); assert [k][1..] == []; Some([k])
      case None => None
    else
      var r := NextInForest(n.children, p);
      if r.Some? then NodeAtStep(n, r.value); r else r
  }

  function NextInForest(cs: seq<Node>, p: Path): (r: Option<Path>)
    requires p != []
    ensures r.Some? ==> r.value != [] && r.value[0] < |cs| && IsElementAt(cs[r.value[0]], r.value[1..])
    decreases |p|, 0
  {
    var i := p[0];
    if i >= |cs| then None
    else match NextNode(cs[i], p[1..])
      case Some(q) => Some([i] + q)
      case None => AsChild(FirstElementFrom(cs, i + 1))
  }

  /** The last element of `n`'s subtree in document order: the deepest last element
      child, where `previousNode()` lands after moving to a previous sibling. */
  function LastPath(n: Node): (r: Path)
    ensures n.Element? ==> IsElementAt(n, r)
    decreases n
  {
    if !n.Element? then []
    else match LastElementBefore(n.children, |n.children|)
      case Some(j) => [j] + LastPath(n.children[j])
      case None => []
  }

  /** `previousNode()` from the element at `p`: the last element of the previous
      element sibling's subtree, else the parent. No node from `n` itself. */
  function PrevNode(n: Node, p: Path): (r: Option<Path>)
    ensures r.Some? ==> IsElementAt(n, r.value)
    decreases |p|, 1
  {
    if !n.Element? || p == [] then None
    else
      var r := PrevInForest(n.children, p);
      if r.Some? && r.value != [] then NodeAtStep(n, r.value); r else r
  }

  function PrevInForest(cs: seq<Node>, p: Path): (r: Option<Path>)
    requires p != []
    ensures r.Some? && r.value != [] ==> r.value[0] < |cs| && IsElementAt(cs[r.value[0]], r.value[1..])
    decreases |p|, 0
  {
    var i := p[0];
    if i >= |cs| then None
    else if |p| == 1 then
      match LastElementBefore(cs, i)
      case Some(j) => Some([j] + LastPath(cs[j]))
      case None => Some([])
    else match PrevNode(cs[i], p[1..])
      case Some(q) => Some([i] + q)
      case None => None
  }

  // ---------------------------------------------------------------------------
  // Shape of the reference order

  /** The order is empty exactly when the subtrees hold no element; it starts at the
      first element child. */
  lemma {:induction false} ForestHead(cs: seq<Node>, from: nat)
    ensures Forest(cs, from) == [] <==> FirstElementFrom(cs, from).None?
    ensures FirstElementFrom(cs, from).Some? ==>
      Forest(cs, from)[0] == [FirstElementFrom(cs, from).value]
    decreases |cs| - from
  {
    if from < |cs| {
      if !cs[from].Element? {
        assert Prefixed(from, PreOrder(cs[from])) == [];
        assert Forest(cs, from) == Forest(cs, from + 1);
        ForestHead(cs, from + 1);
      }
    }
  }

  /** Every entry of the order leads to an element. */
  lemma {:induction false} PreOrderValid(n: Node, k: nat)
    requires k < |PreOrder(n)|
    ensures n.Element? && IsElementAt(n, PreOrder(n)[k])
    ensures k > 0 <==> PreOrder(n)[k] != []
    decreases n, 1
  {
    if k > 0 {
      ForestValid(n.children, 0, k - 1);
    }
  }

  lemma {:induction false} ForestValid(cs: seq<Node>, from: nat, m: nat)
    requires m < |Forest(cs, from)|
    ensures var q := Forest(cs, from)[m];
      q != [] && from <= q[0] < |cs| && IsElementAt(cs[q[0]], q[1..])
    decreases cs, |cs| - from
  {
    var P := PreOrder(cs[from]);
    if m < |P| {
      PreOrderValid(cs[from], m);
      assert Forest(cs, from)[m] == [from] + P[m];
      assert ([from] + P[m])[1..] == P[m];
    } else {
      ForestValid(cs, from + 1, m - |P|);
    }
  }

  // ---------------------------------------------------------------------------
  // nextNode is the successor in the order

  lemma {:induction false} NextIsSuccessor(n: Node, k: nat)
    requires k < |PreOrder(n)|
    ensures NextNode(n, PreOrder(n)[k]) ==
      if k + 1 < |PreOrder(n)| then Some(PreOrder(n)[k + 1]) else None
    decreases n, 1
  {
    var cs := n.children;
    if k == 0 {
      ForestHead(cs, 0);
    } else {
      ForestValid(cs, 0, k - 1);
      ForestNext(cs, 0, k - 1);
    }
  }

  lemma {:induction false} ForestNext(cs: seq<Node>, from: nat, m: nat)
    requires m < |Forest(cs, from)|
    ensures Forest(cs, from)[m] != []
    ensures NextInForest(cs, Forest(cs, from)[m]) ==
      if m + 1 < |Forest(cs, from)| then Some(Forest(cs, from)[m + 1]) else None
    decreases cs, |cs| - from
  {
    ForestValid(cs, from, m);
    var F := Forest(cs, from);
    var P := PreOrder(cs[from]);
    var F' := Forest(cs, from + 1);
    assert F == Prefixed(from, P) + F';
    if m < |P| {
      assert F[m] == [from] + P[m];
      assert F[m][1..] == P[m];
      NextIsSuccessor(cs[from], m);
      if m + 1 == |P| {
        ForestHead(cs, from + 1);
        if F' != [] {
          assert F[m + 1] == F'[0];
        }
      } else {
        assert F[m + 1] == [from] + P[m + 1];
      }
    } else {
      assert F[m] == F'[m - |P|];
      ForestNext(cs, from + 1, m - |P|);
      if m + 1 < |F| {
        assert F[m + 1] == F'[m + 1 - |P|];
      }
    }
  }

  // ---------------------------------------------------------------------------
  // previousNode is the predecessor in the order

  /** The deepest last element is the end of the order. */
  lemma {:induction false} LastPathIsLast(n: Node)
    requires n.Element?
    ensures PreOrder(n)[|PreOrder(n)| - 1] == LastPath(n)
    decreases n, 1
  {
    var cs := n.children;
    ForestHead(cs, 0);
    if Forest(cs, 0) != [] {
      ForestLast(cs, 0);
    }
  }

  lemma {:induction false} ForestLast(cs: seq<Node>, from: nat)
    requires Forest(cs, from) != []
    ensures LastElementBefore(cs, |cs|).Some?
    ensures var j := LastElementBefore(cs, |cs|).value;
      from <= j && Forest(cs, from)[|Forest(cs, from)| - 1] == [j] + LastPath(cs[j])
    decreases cs, |cs| - from
  {
    var F := Forest(cs, from);
    var P := PreOrder(cs[from]);
    var F' := Forest(cs, from + 1);
    assert F == Prefixed(from, P) + F';
    if F' != [] {
      ForestLast(cs, from + 1);
    } else {
      ForestHead(cs, from + 1);
      assert cs[from].Element?;
      assert LastElementBefore(cs, |cs|) == Some(from);
      LastPathIsLast(cs[from]);
    }
  }

  lemma {:induction false} PrevIsPredecessor(n: Node, k: nat)
    requires k < |PreOrder(n)|
    ensures PrevNode(n, PreOrder(n)[k]) == if k > 0 then Some(PreOrder(n)[k - 1]) else None
    decreases n, 1
  {
    var cs := n.children;
    if k == 1 {
      ForestHead(cs, 0);
      var j := FirstElementFrom(cs, 0).value;
      assert LastElementBefore(cs, j).None?;
    } else if k > 1 {
      ForestValid(cs, 0, k - 1);
      ForestPrev(cs, 0, k - 1);
    }
  }

  lemma {:induction false} ForestPrev(cs: seq<Node>, from: nat, m: nat)
    requires 0 < m < |Forest(cs, from)|
    ensures Forest(cs, from)[m] != []
    ensures PrevInForest(cs, Forest(cs, from)[m]) == Some(Forest(cs, from)[m - 1])
    decreases cs, |cs| - from
  {
    ForestValid(cs, from, m);
    var F := Forest(cs, from);
    var P := PreOrder(cs[from]);
    var F' := Forest(cs, from + 1);
    assert F == Prefixed(from, P) + F';
    if m < |P| {
      assert F[m] == [from] + P[m];
      PreOrderValid(cs[from], m);
      PrevIsPredecessor(cs[from], m);
      assert F[m - 1] == [from] + P[m - 1];
    } else if m == |P| {
      ForestHead(cs, from + 1);
      var j := FirstElementFrom(cs, from + 1).value;
      assert F[m] == [j];
      assert cs[from].Element?;
      assert LastElementBefore(cs, j) == Some(from);
      LastPathIsLast(cs[from]);
      assert F[m - 1] == [from] + P[|P| - 1];
    } else {
      assert F[m] == F'[m - |P|];
      assert F[m - 1] == F'[m - 1 - |P|];
      ForestPrev(cs, from + 1, m - |P|);
    }
  }

  // ---------------------------------------------------------------------------
  // Every element exactly once

  lemma {:induction false} Complete(n: Node, p: Path)
    requires IsElementAt(n, p)
    ensures p in PreOrder(n)
    decreases |p|
  {
    if p != [] {
      var i := p[0];
      Complete(n.children[i], p[1..]);
      ForestContains(n.children, 0, i, p[1..]);
      assert p == [i] + p[1..];
    }
  }

  lemma {:induction false} ForestContains(cs: seq<Node>, from: nat, i: nat, q: Path)
    requires from <= i < |cs| && q in PreOrder(cs[i])
    ensures [i] + q in Forest(cs, from)
    decreases |cs| - from
  {
    var P := PreOrder(cs[from]);
    if i == from {
      var t :| 0 <= t < |P| && P[t] == q;
      assert Forest(cs, from)[t] == [i] + q;
    } else {
      ForestContains(cs, from + 1, i, q);
    }
  }

  lemma {:induction false} PreOrderDistinct(n: Node)
    ensures forall a, b :: 0 <= a < b < |PreOrder(n)| ==> PreOrder(n)[a] != PreOrder(n)[b]
    decreases n, 1
  {
    if n.Element? {
      var F := Forest(n.children, 0);
      ForestDistinct(n.children, 0);
      forall a, b | 0 <= a < b < |PreOrder(n)|
        ensures PreOrder(n)[a] != PreOrder(n)[b]
      {
        PreOrderValid(n, b);
      }
    }
  }

  lemma {:induction false} ForestDistinct(cs: seq<Node>, from: nat)
    ensures forall a, b :: 0 <= a < b < |Forest(cs, from)| ==> Forest(cs, from)[a] != Forest(cs, from)[b]
    decreases cs, |cs| - from
  {
    if from < |cs| {
      var F := Forest(cs, from);
      var P := PreOrder(cs[from]);
      var F' := Forest(cs, from + 1);
      assert F == Prefixed(from, P) + F';
      PreOrderDistinct(cs[from]);
      ForestDistinct(cs, from + 1);
      forall a, b | 0 <= a < b < |F|
        ensures F[a] != F[b]
      {
        if b < |P| {
          assert F[a] == [from] + P[a] && F[b] == [from] + P[b];
          assert F[a][1..] == P[a] && F[b][1..] == P[b];
        } else if a < |P| {
          ForestValid(cs, from + 1, b - |P|);
          assert F[a][0] == from;
        }
      }
    }
  }
}
