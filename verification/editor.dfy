/** The editor `DartMark`: a document root (the frame's `body`) and a cursor on one of
    its elements, or on none. This module holds the setup pass that marks the empty
    elements and the cursor moves; the editing commands are in `Commands`.

    The cursor is kept as the index path of the element it is on. */
module Editor {
  import opened Results
  import opened Tree
  import opened Walker

  datatype Editor = Editor(root: Node, cursor: Option<Path>)

  /** The root is an element, and the cursor, when set, is on an element of it. */
  predicate Valid(e: Editor) {
    e.root.Element? && (e.cursor.Some? ==> IsElementAt(e.root, e.cursor.value))
  }

  // ---------------------------------------------------------------------------
  // Setup

  /** `r` is `n` with the empty marker added to exactly the elements that are empty:
      the same node kinds, tags, ids and shape throughout, every class kept, and no
      marker added to an element with content. */
  predicate MarkedCopy(n: Node, r: Node)
    decreases n
  {
    if n.Element? then
      && r.Element? && r.tag == n.tag && r.id == n.id
      && r.classes == (if Empty(n) then AddClass(n.classes, EmptyMarker) else n.classes)
      && |r.children| == |n.children|
      && forall k :: 0 <= k < |n.children| ==> MarkedCopy(n.children[k], r.children[k])
    else
      r == n
  }

  /** The setup pass `check`: the children first, then the element itself gains the
      empty marker if it is empty. No marker is ever removed. */
  function MarkEmpty(n: Node): (r: Node)
    ensures MarkedCopy(n, r)
    ensures !n.Element? ==> r == n
    ensures n.Element? ==> && r.Element? && r.tag == n.tag && r.id == n.id
                           && |r.children| == |n.children|
                           && r.classes == if Empty(n) then AddClass(n.classes, EmptyMarker) else n.classes
    ensures Empty(r) == Empty(n)
    ensures Covered(r)
    ensures IdBag(r) == IdBag(n)
    decreases n, 1
  {
    if n.Element? then Finish(n, MarkForest(n.children)) else n
  }

  /** The step of the pass at one element, once its children are marked (`cs'`). */
  function Finish(n: Node, cs': seq<Node>): (r: Node)
    requires n.Element? && |cs'| == |n.children|
    requires forall k :: 0 <= k < |cs'| ==> Ignorable(cs'[k]) == Ignorable(n.children[k])
    requires forall k :: 0 <= k < |cs'| ==> Covered(cs'[k])
    requires ForestIdBag(cs') == ForestIdBag(n.children)
    requires forall k :: 0 <= k < |cs'| ==> MarkedCopy(n.children[k], cs'[k])
    ensures r.Element? && r.tag == n.tag && r.id == n.id && r.children == cs'
    ensures MarkedCopy(n, r)
    ensures r.classes == if Empty(n) then AddClass(n.classes, EmptyMarker) else n.classes
    ensures Empty(r) == Empty(n) && Covered(r) && IdBag(r) == IdBag(n)
  {
    var m := n.(children := cs');
    assert Empty(m) == Empty(n) by {
      assert ChildNodes(m) == cs';
      forall k | 0 <= k < |cs'|
        ensures Ignorable(ChildNodes(m)[k]) == Ignorable(ChildNodes(n)[k])
      {
      }
    }
    var r := if Empty(m) then m.(classes := AddClass(n.classes, EmptyMarker)) else m;
    assert Empty(r) == Empty(m) by {
      assert ChildNodes(r) == ChildNodes(m);
    }
    r
  }

  function MarkForest(cs: seq<Node>): (rs: seq<Node>)
    ensures |rs| == |cs|
    ensures forall k :: 0 <= k < |cs| ==> rs[k] == MarkEmpty(cs[k])
    ensures forall k :: 0 <= k < |cs| ==> MarkedCopy(cs[k], rs[k])
    ensures forall k :: 0 <= k < |cs| ==> Ignorable(rs[k]) == Ignorable(cs[k]) && Covered(rs[k])
    ensures ForestIdBag(rs) == ForestIdBag(cs)
    decreases cs, 0
  {
    if cs == [] then []
    else
      var rs := [MarkEmpty(cs[0])] + MarkForest(cs[1..]);
      assert rs[1..] == MarkForest(cs[1..]);
      rs
  }

  /** The pass changes a tree exactly when some empty element lacks the marker. */
  lemma {:induction false} MarkEmptyFixes(n: Node)
    ensures MarkEmpty(n) == n <==> Covered(n)
    decreases n
  {
    if n.Element? && Covered(n) {
      var cs := n.children;
      forall k | 0 <= k < |cs|
        ensures MarkEmpty(cs[k]) == cs[k]
      {
        MarkEmptyFixes(cs[k]);
      }
      assert MarkForest(cs) == cs;
    }
  }

  /** The marked copy of a tree is unique, so it is the one the pass computes. */
  lemma {:induction false} MarkedCopyUnique(n: Node, r: Node)
    requires MarkedCopy(n, r)
    ensures r == MarkEmpty(n)
    decreases n
  {
    if n.Element? {
      var cs, rs := n.children, r.children;
      forall k | 0 <= k < |cs|
        ensures rs[k] == MarkEmpty(cs[k])
      {
        MarkedCopyUnique(cs[k], rs[k]);
      }
      assert rs == MarkForest(cs);
    }
  }

  /** Running the pass twice is running it once. */
  lemma MarkEmptyIdempotent(n: Node)
    ensures MarkEmpty(MarkEmpty(n)) == MarkEmpty(n)
  {
    MarkEmptyFixes(MarkEmpty(n));
  }

  /** `setupRoot`: the editor starts on the marked `body`, with no cursor. */
  function Setup(body: Node): (e: Editor)
    requires body.Element?
    ensures Valid(e) && e.cursor.None?
    ensures MarkedCopy(body, e.root)
    ensures Covered(e.root) && IdBag(e.root) == IdBag(body)
    ensures Covered(body) ==> e.root == body
  {
    MarkEmptyFixes(body);
    Editor(MarkEmpty(body), None)
  }

  // ---------------------------------------------------------------------------
  // The cycle of stops

  function Somes(ps: seq<Path>): seq<Option<Path>> {
    seq(|ps|, k requires 0 <= k < |ps| => Some(ps[k]))
  }

  /** The positions `moveForward` cycles through: no cursor, then every element in
      document order. */
  function Stops(n: Node): seq<Option<Path>> {
    [None] + Somes(PreOrder(n))
  }

  /** Every valid cursor is one of the stops. */
  lemma StopsComplete(e: Editor)
    requires Valid(e)
    ensures exists i :: 0 <= i < |Stops(e.root)| && Stops(e.root)[i] == e.cursor
  {
    var S := Stops(e.root);
    if e.cursor.None? {
      assert S[0] == e.cursor;
    } else {
      Complete(e.root, e.cursor.value);
      var k :| 0 <= k < |PreOrder(e.root)| && PreOrder(e.root)[k] == e.cursor.value;
      assert S[k + 1] == e.cursor;
    }
  }

  /** Every stop is a valid cursor. */
  lemma StopValid(n: Node, i: nat)
    requires n.Element? && i < |Stops(n)|
    ensures Valid(Editor(n, Stops(n)[i]))
  {
    if i > 0 {
      PreOrderValid(n, i - 1);
    }
  }

  // ---------------------------------------------------------------------------
  // Document-order moves

  function Forward(n: Node, c: Option<Path>): Option<Path> {
    match c
    case None => Some([])
    case Some(p) => NextNode(n, p)
  }

  function Backward(n: Node, c: Option<Path>): Option<Path> {
    match c
    case None => Some(LastPath(n))
    case Some(p) => PrevNode(n, p)
  }

  /** The stop after stop `i`, back to the first after the last. */
  function After(i: nat, m: nat): nat {
    if i + 1 < m then i + 1 else 0
  }

  /** The stop before stop `i`, back to the last before the first. */
  function Before(i: nat, m: nat): nat
    requires 0 < m
  {
    if i == 0 then m - 1 else i - 1
  }

  lemma ForwardStep(n: Node, i: nat)
    requires n.Element? && i < |Stops(n)|
    ensures Forward(n, Stops(n)[i]) == Stops(n)[After(i, |Stops(n)|)]
  {
    var S, L := Stops(n), PreOrder(n);
    if i == 0 {
      PreOrderValid(n, 0);
      assert S[1] == Some(L[0]);
    } else {
      assert S[i] == Some(L[i - 1]);
      NextIsSuccessor(n, i - 1);
      if i < |L| {
        assert S[i + 1] == Some(L[i]);
      }
    }
  }

  lemma BackwardStep(n: Node, i: nat)
    requires n.Element? && i < |Stops(n)|
    ensures Backward(n, Stops(n)[i]) == Stops(n)[Before(i, |Stops(n)|)]
  {
    var S, L := Stops(n), PreOrder(n);
    if i == 0 {
      LastPathIsLast(n);
      assert S[|S| - 1] == Some(L[|L| - 1]);
    } else {
      assert S[i] == Some(L[i - 1]);
      PrevIsPredecessor(n, i - 1);
      if i > 1 {
        assert S[i - 1] == Some(L[i - 2]);
      }
    }
  }

  /** `moveForward`: the root when there is no cursor, else the walker's `nextNode()`;
      past the last element the cursor is cleared. It is the next stop of the cycle. */
  function MoveForward(e: Editor): (r: Editor)
    requires Valid(e)
    ensures Valid(r) && r.root == e.root
    ensures forall i :: 0 <= i < |Stops(e.root)| && Stops(e.root)[i] == e.cursor ==>
      r.cursor == Stops(e.root)[After(i, |Stops(e.root)|)]
  {
    var r := e.(cursor := Forward(e.root, e.cursor));
    assert Valid(r) by {
      StopsComplete(e);
      var i :| 0 <= i < |Stops(e.root)| && Stops(e.root)[i] == e.cursor;
      ForwardStep(e.root, i);
      StopValid(e.root, After(i, |Stops(e.root)|));
    }
    assert forall i :: 0 <= i < |Stops(e.root)| && Stops(e.root)[i] == e.cursor ==>
      r.cursor == Stops(e.root)[After(i, |Stops(e.root)|)] by {
      forall i | 0 <= i < |Stops(e.root)| && Stops(e.root)[i] == e.cursor {
        ForwardStep(e.root, i);
      }
    }
    r
  }

  /** `moveBackward`: the last element when there is no cursor (the walker runs
      `nextNode()` from the root to the end), else `previousNode()`; from the root the
      cursor is cleared. It is the previous stop of the cycle. */
  function MoveBackward(e: Editor): (r: Editor)
    requires Valid(e)
    ensures Valid(r) && r.root == e.root
    ensures forall i :: 0 <= i < |Stops(e.root)| && Stops(e.root)[i] == e.cursor ==>
      r.cursor == Stops(e.root)[Before(i, |Stops(e.root)|)]
  {
    var r := e.(cursor := Backward(e.root, e.cursor));
    assert Valid(r) by {
      StopsComplete(e);
      var i :| 0 <= i < |Stops(e.root)| && Stops(e.root)[i] == e.cursor;
      BackwardStep(e.root, i);
      StopValid(e.root, Before(i, |Stops(e.root)|));
    }
    assert forall i :: 0 <= i < |Stops(e.root)| && Stops(e.root)[i] == e.cursor ==>
      r.cursor == Stops(e.root)[Before(i, |Stops(e.root)|)] by {
      forall i | 0 <= i < |Stops(e.root)| && Stops(e.root)[i] == e.cursor {
        BackwardStep(e.root, i);
      }
    }
    r
  }

  /** The two document-order moves undo each other, from every position. */
  lemma ForwardBackward(e: Editor)
    requires Valid(e)
    ensures MoveBackward(MoveForward(e)) == e
    ensures MoveForward(MoveBackward(e)) == e
  {
    var S := Stops(e.root);
    var m := |S|;
    StopsComplete(e);
    var i :| 0 <= i < m && S[i] == e.cursor;
    var f := After(i, m);
    assert MoveForward(e).cursor == S[f];
    assert Before(f, m) == i;
    var b := Before(i, m);
    assert MoveBackward(e).cursor == S[b];
    assert After(b, m) == i;
  }

  /** `moveForward` applied `k` times. */
  function ForwardTimes(e: Editor, k: nat): (r: Editor)
    requires Valid(e)
    ensures Valid(r) && r.root == e.root
    decreases k
  {
    if k == 0 then e else MoveForward(ForwardTimes(e, k - 1))
  }

  /** Repeated `moveForward` from no cursor visits every element once, in document
      order, and comes back to no cursor after one step more. */
  lemma {:induction false} ForwardSweep(root: Node, k: nat)
    requires root.Element? && k <= |Stops(root)|
    ensures k < |Stops(root)| ==> ForwardTimes(Editor(root, None), k).cursor == Stops(root)[k]
    ensures k == |Stops(root)| ==> ForwardTimes(Editor(root, None), k).cursor.None?
    decreases k
  {
    if k > 0 {
      ForwardSweep(root, k - 1);
      var prev := ForwardTimes(Editor(root, None), k - 1);
      assert prev.cursor == Stops(root)[k - 1];
      assert After(k - 1, |Stops(root)|) == k % |Stops(root)|;
    } else {
      assert Stops(root)[0] == None;
    }
  }

  /** `moveBackward` applied `k` times. */
  function BackwardTimes(e: Editor, k: nat): (r: Editor)
    requires Valid(e)
    ensures Valid(r) && r.root == e.root
    decreases k
  {
    if k == 0 then e else MoveBackward(BackwardTimes(e, k - 1))
  }

  /** Repeated `moveBackward` from no cursor visits the stops from the last one down:
      the last element first, the root last, then no cursor again. */
  lemma {:induction false} BackwardSweep(root: Node, k: nat)
    requires root.Element? && 0 < k <= |Stops(root)|
    ensures BackwardTimes(Editor(root, None), k).cursor == Stops(root)[|Stops(root)| - k]
    decreases k
  {
    var m := |Stops(root)|;
    var prev := BackwardTimes(Editor(root, None), k - 1);
    var i := if k == 1 then 0 else m - (k - 1);
    if k > 1 {
      BackwardSweep(root, k - 1);
    }
    assert Stops(root)[i] == prev.cursor;
    assert Before(i, m) == m - k;
    assert BackwardTimes(Editor(root, None), k) == MoveBackward(prev);
  }

  /** The backward sweep is the forward sweep read from its end. */
  lemma SweepsReverse(root: Node, k: nat)
    requires root.Element? && 0 < k <= |Stops(root)|
    ensures BackwardTimes(Editor(root, None), k) == ForwardTimes(Editor(root, None), |Stops(root)| - k)
  {
    BackwardSweep(root, k);
    ForwardSweep(root, |Stops(root)| - k);
  }

  /** `clearCursor`: the cursor is unset; the document stays. */
  function ClearCursor(e: Editor): (r: Editor)
    requires Valid(e)
    ensures Valid(r) && r.root == e.root && r.cursor.None?
  {
    e.(cursor := None)
  }

  /** After `clearCursor`, `moveForward` starts again at the root and `moveBackward`
      at the last element in document order. */
  lemma ClearThenMove(e: Editor)
    requires Valid(e)
    ensures MoveForward(ClearCursor(e)).cursor == Some([])
    ensures MoveBackward(ClearCursor(e)).cursor == Some(LastPath(e.root))
  {
    var S := Stops(e.root);
    PreOrderValid(e.root, 0);
    assert S[0] == None && S[1] == Some(PreOrder(e.root)[0]);
    LastPathIsLast(e.root);
    assert S[|S| - 1] == Some(LastPath(e.root));
  }

  // ---------------------------------------------------------------------------
  // Sibling moves

  /** `j` is the element child that follows child `i` among `cs` when the element
      children are taken in a cycle: the first element child after `i`, or, when
      there is none, the first element child of all. */
  predicate CyclicNext(cs: seq<Node>, i: nat, j: nat) {
    && i < |cs| && j < |cs| && cs[j].Element?
    && if i < j then forall k :: i < k < j ==> !cs[k].Element?
       else (forall k :: i < k < |cs| ==> !cs[k].Element?) && (forall k :: 0 <= k < j ==> !cs[k].Element?)
  }

  /** An element child has exactly one cyclic successor... */
  lemma CyclicNextUnique(cs: seq<Node>, i: nat, j: nat, j': nat)
    requires CyclicNext(cs, i, j) && CyclicNext(cs, i, j')
    ensures j == j'
  {
  }

  /** ...and is the cyclic successor of exactly one element child. */
  lemma CyclicNextInjective(cs: seq<Node>, i: nat, i': nat, j: nat)
    requires CyclicNext(cs, i, j) && CyclicNext(cs, i', j)
    requires cs[i].Element? && cs[i'].Element?
    ensures i == i'
  {
  }

  /** The children of the parent of `p`. */
  function SiblingsOf(root: Node, p: Path): (cs: seq<Node>)
    requires IsElementAt(root, p) && p != []
    ensures Last(p) < |cs| && cs[Last(p)] == NodeAt(root, p).value
    ensures IsElementAt(root, Parent(p)) && cs == NodeAt(root, Parent(p)).value.children
  {
    ParentOf(root, p);
    NodeAt(root, Parent(p)).value.children
  }

  /** The element child of `q` at `j` is an element of the tree. */
  lemma SiblingValid(root: Node, p: Path, j: nat)
    requires IsElementAt(root, p) && p != []
    requires j < |SiblingsOf(root, p)| && SiblingsOf(root, p)[j].Element?
    ensures IsElementAt(root, Parent(p) + [j])
  {
    ChildOf(root, Parent(p), j);
  }

  /** The next element sibling, wrapping round to the first. */
  function NextSibling(root: Node, p: Path): (j: nat)
    requires IsElementAt(root, p) && p != []
    ensures CyclicNext(SiblingsOf(root, p), Last(p), j)
  {
    var cs := SiblingsOf(root, p);
    match FirstElementFrom(cs, Last(p) + 1)
    case Some(j) => j
    case None =>
      assert FirstElementFrom(cs, 0).Some?;
      FirstElementFrom(cs, 0).value
  }

  /** The previous element sibling, wrapping round to the last. */
  function PrevSibling(root: Node, p: Path): (j: nat)
    requires IsElementAt(root, p) && p != []
    ensures CyclicNext(SiblingsOf(root, p), j, Last(p))
  {
    var cs := SiblingsOf(root, p);
    match LastElementBefore(cs, Last(p))
    case Some(j) => j
    case None =>
      assert LastElementBefore(cs, |cs|).Some?;
      LastElementBefore(cs, |cs|).value
  }

  /** `moveNext`: the root when there is no cursor; nothing on the root; else the
      walker's `nextSibling()`, or its parent's `firstChild()` past the last one. */
  function MoveNext(e: Editor): (r: Editor)
    requires Valid(e)
    ensures Valid(r) && r.root == e.root
    ensures e.cursor.None? ==> r.cursor == Some([])
    ensures e.cursor == Some([]) ==> r == e
    ensures e.cursor.Some? && e.cursor.value != [] ==>
      var p := e.cursor.value;
      && r.cursor.Some? && r.cursor.value != [] && Parent(r.cursor.value) == Parent(p)
      && CyclicNext(SiblingsOf(e.root, p), Last(p), Last(r.cursor.value))
  {
    match e.cursor
    case None => e.(cursor := Some([]))
    case Some(p) =>
      if p == [] then e
      else
        var j := NextSibling(e.root, p);
        SiblingValid(e.root, p, j);
        ChildOf(e.root, Parent(p), j);
        e.(cursor := Some(Parent(p) + [j]))
  }

  /** `movePrev`: the root when there is no cursor; nothing on the root; else the
      walker's `previousSibling()`, or its parent's `lastChild()` before the first one. */
  function MovePrev(e: Editor): (r: Editor)
    requires Valid(e)
    ensures Valid(r) && r.root == e.root
    ensures e.cursor.None? ==> r.cursor == Some([])
    ensures e.cursor == Some([]) ==> r == e
    ensures e.cursor.Some? && e.cursor.value != [] ==>
      var p := e.cursor.value;
      && r.cursor.Some? && r.cursor.value != [] && Parent(r.cursor.value) == Parent(p)
      && CyclicNext(SiblingsOf(e.root, p), Last(r.cursor.value), Last(p))
  {
    match e.cursor
    case None => e.(cursor := Some([]))
    case Some(p) =>
      if p == [] then e
      else
        var j := PrevSibling(e.root, p);
        SiblingValid(e.root, p, j);
        ChildOf(e.root, Parent(p), j);
        e.(cursor := Some(Parent(p) + [j]))
  }

  /** Two paths with the same parent and the same last step are the same path. */
  lemma SamePath(p: Path, p': Path)
    requires p != [] && p' != [] && Parent(p) == Parent(p') && Last(p) == Last(p')
    ensures p == p'
  {
    assert p == Parent(p) + [Last(p)];
    assert p' == Parent(p') + [Last(p')];
  }

  /** `moveNext` and `movePrev` undo each other whenever a cursor is set. */
  lemma NextPrev(e: Editor)
    requires Valid(e) && e.cursor.Some?
    ensures MovePrev(MoveNext(e)) == e
    ensures MoveNext(MovePrev(e)) == e
  {
    var p := e.cursor.value;
    if p != [] {
      var cs := SiblingsOf(e.root, p);
      var n := MoveNext(e);
      var n' := n.cursor.value;
      assert SiblingsOf(e.root, n') == cs;
      var back := MovePrev(n).cursor.value;
      CyclicNextInjective(cs, Last(back), Last(p), Last(n'));
      SamePath(back, p);
      var v := MovePrev(e);
      var v' := v.cursor.value;
      assert SiblingsOf(e.root, v') == cs;
      var fwd := MoveNext(v).cursor.value;
      CyclicNextUnique(cs, Last(v'), Last(fwd), Last(p));
      SamePath(fwd, p);
    }
  }

  /** `moveChild`: the root when there is no cursor, else the first element child;
      an element with no element child is refused. */
  function MoveChild(e: Editor): (r: Result<Editor>)
    requires Valid(e)
    ensures r.Ok? ==> Valid(r.value) && r.value.root == e.root
    ensures r.Err? ==> r == Err(NoChildren)
    ensures e.cursor.None? ==> r == Ok(e.(cursor := Some([])))
    ensures e.cursor.Some? ==>
      var n := NodeAt(e.root, e.cursor.value).value;
      && (r == Err(NoChildren) <==> forall k :: 0 <= k < |n.children| ==> !n.children[k].Element?)
      && (r.Ok? ==> && r.value.cursor.Some? && r.value.cursor.value != []
                    && Parent(r.value.cursor.value) == e.cursor.value
                    && var j := Last(r.value.cursor.value);
                       j < |n.children| && n.children[j].Element?
                       && forall k :: 0 <= k < j ==> !n.children[k].Element?)
  {
    match e.cursor
    case None => Ok(e.(cursor := Some([])))
    case Some(p) =>
      var n := NodeAt(e.root, p).value;
      match FirstElementFrom(n.children, 0)
      case None => Err(NoChildren)
      case Some(j) =>
        ChildOf(e.root, p, j);
        Ok(e.(cursor := Some(p + [j])))
  }

  /** `moveUp`: the root when there is no cursor; nothing on the root; else the parent. */
  function MoveUp(e: Editor): (r: Editor)
    requires Valid(e)
    ensures Valid(r) && r.root == e.root
    ensures e.cursor.None? ==> r.cursor == Some([])
    ensures e.cursor == Some([]) ==> r == e
    ensures e.cursor.Some? && e.cursor.value != [] ==>
      r.cursor.Some? && r.cursor.value + [Last(e.cursor.value)] == e.cursor.value
  {
    match e.cursor
    case None => e.(cursor := Some([]))
    case Some(p) =>
      if p == [] then e
      else
        ParentOf(e.root, p);
        e.(cursor := Some(Parent(p)))
  }

  /** Going down to the first element child and back up returns to the element. */
  lemma UpAfterChild(e: Editor)
    requires Valid(e) && e.cursor.Some? && MoveChild(e).Ok?
    ensures MoveUp(MoveChild(e).value) == e
  {
  }

  /** `moveFirst`: the root when there is no cursor; nothing on the root; else the
      first element child of the parent. */
  function MoveFirst(e: Editor): (r: Editor)
    requires Valid(e)
    ensures Valid(r) && r.root == e.root
    ensures e.cursor.None? ==> r.cursor == Some([])
    ensures e.cursor == Some([]) ==> r == e
    ensures e.cursor.Some? && e.cursor.value != [] ==>
      var p, cs := e.cursor.value, SiblingsOf(e.root, e.cursor.value);
      && r.cursor.Some? && r.cursor.value != [] && Parent(r.cursor.value) == Parent(p)
      && var j := Last(r.cursor.value);
         j < |cs| && cs[j].Element? && forall k :: 0 <= k < j ==> !cs[k].Element?
  {
    match e.cursor
    case None => e.(cursor := Some([]))
    case Some(p) =>
      if p == [] then e
      else
        var cs := SiblingsOf(e.root, p);
        assert FirstElementFrom(cs, 0).Some?;
        var j := FirstElementFrom(cs, 0).value;
        SiblingValid(e.root, p, j);
        ChildOf(e.root, Parent(p), j);
        e.(cursor := Some(Parent(p) + [j]))
  }

  /** `moveLast`: the root when there is no cursor; nothing on the root; else the
      last element child of the parent. */
  function MoveLast(e: Editor): (r: Editor)
    requires Valid(e)
    ensures Valid(r) && r.root == e.root
    ensures e.cursor.None? ==> r.cursor == Some([])
    ensures e.cursor == Some([]) ==> r == e
    ensures e.cursor.Some? && e.cursor.value != [] ==>
      var p, cs := e.cursor.value, SiblingsOf(e.root, e.cursor.value);
      && r.cursor.Some? && r.cursor.value != [] && Parent(r.cursor.value) == Parent(p)
      && var j := Last(r.cursor.value);
         j < |cs| && cs[j].Element? && forall k :: j < k < |cs| ==> !cs[k].Element?
  {
    match e.cursor
    case None => e.(cursor := Some([]))
    case Some(p) =>
      if p == [] then e
      else
        var cs := SiblingsOf(e.root, p);
        assert LastElementBefore(cs, |cs|).Some?;
        var j := LastElementBefore(cs, |cs|).value;
        SiblingValid(e.root, p, j);
        ChildOf(e.root, Parent(p), j);
        e.(cursor := Some(Parent(p) + [j]))
  }

  /** Moving to the first sibling twice is moving there once. */
  lemma FirstIdempotent(e: Editor)
    requires Valid(e)
    ensures MoveFirst(MoveFirst(e)) == MoveFirst(e)
  {
    if e.cursor.Some? && e.cursor.value != [] {
      var p := e.cursor.value;
      var f := MoveFirst(e).cursor.value;
      assert SiblingsOf(e.root, f) == SiblingsOf(e.root, p);
      SamePath(MoveFirst(MoveFirst(e)).cursor.value, f);
    }
  }

  /** Stepping back from the first sibling wraps round to the last one. */
  lemma PrevOfFirstIsLast(e: Editor)
    requires Valid(e) && e.cursor.Some? && e.cursor.value != []
    ensures MovePrev(MoveFirst(e)) == MoveLast(e)
  {
    var p := e.cursor.value;
    var cs := SiblingsOf(e.root, p);
    var f := MoveFirst(e).cursor.value;
    assert SiblingsOf(e.root, f) == cs;
    var a := MovePrev(MoveFirst(e)).cursor.value;
    var b := MoveLast(e).cursor.value;
    assert CyclicNext(cs, Last(b), Last(f));
    CyclicNextInjective(cs, Last(a), Last(b), Last(f));
    SamePath(a, b);
  }
}
