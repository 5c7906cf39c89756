/** The tree edits of `DartMarkActions`. Each takes the document root and the path
    of the element to act on (the editor's cursor) and returns the new root, or the
    error the action throws, in which case nothing has changed.

    Every action keeps two document invariants: ids stay unique, and every empty
    element carries the `dm_empty` marker. */
module Actions {
  import opened Results
  import opened Tree
  import Whitespace

  /** `generateNode(name, nonempty)`: a new childless element named `name` (a `div`
      when no name is given) that carries the empty marker unless `nonempty`. */
  function GenerateNode(name: string, nonempty: bool): (r: Node)
    ensures r.Element? && r.children == [] && r.id == ""
    ensures r.tag == TagName(name)
    ensures Marked(r) <==> !nonempty
    ensures r.classes == [] || r.classes == [EmptyMarker]
    ensures Empty(r) && IdBag(r) == multiset{}
    ensures Covered(r) <==> !nonempty
  {
    Element(TagName(name), if nonempty then [] else [EmptyMarker], "", [])
  }

  /** The element every insertion adds: an empty, marked `div`. */
  function NewEmptyDiv(): Node {
    GenerateNode("", false)
  }

  /** `b` is the element `a` with `x` inserted among its children at position `i`:
      the children before `i` and from `i` on keep their order, and nothing else changes. */
  ghost predicate InsertedChild(a: Node, b: Node, i: nat, x: Node) {
    && a.Element? && b.Element?
    && a.tag == b.tag && a.classes == b.classes && a.id == b.id
    && i <= |a.children|
    && |b.children| == |a.children| + 1
    && b.children[..i] == a.children[..i]
    && b.children[i] == x
    && b.children[i + 1..] == a.children[i..]
  }

  /** The invariants an action keeps. */
  ghost predicate Keeps(before: Node, after: Node) {
    && (UniqueIds(before) ==> UniqueIds(after))
    && (Covered(before) ==> Covered(after))
  }

  /** Replacing the element at `q` by an element whose ids are among the old one's,
      and which is covered whenever the tree was, keeps both invariants. */
  lemma KeepsReplace(root: Node, q: Path, m: Node)
    requires IsElementAt(root, q) && m.Element?
    requires IdBag(m) <= IdBag(NodeAt(root, q).value)
    requires Covered(root) ==> Covered(m)
    ensures Keeps(root, ReplaceAt(root, q, m))
  {
    if UniqueIds(root) {
      UniqueAfterReplace(root, q, m);
    }
    if Covered(root) {
      CoveredReplace(root, q, m);
    }
  }

  /** An element with an element child is not empty. */
  lemma ElementChildNotEmpty(n: Node, i: nat)
    requires n.Element? && i < |n.children| && n.children[i].Element?
    ensures !Empty(n)
  {
    assert !Ignorable(ChildNodes(n)[i]);
  }

  ghost predicate AllCovered(cs: seq<Node>) {
    forall k :: 0 <= k < |cs| ==> Covered(cs[k])
  }

  lemma CoveredInsertList(cs: seq<Node>, i: nat, x: Node)
    requires i <= |cs| && AllCovered(cs) && Covered(x)
    ensures AllCovered(cs[..i] + [x] + cs[i..])
  {
    var ds := cs[..i] + [x] + cs[i..];
    forall k | 0 <= k < |ds|
      ensures Covered(ds[k])
    {
      if k < i {
        assert ds[k] == cs[k];
      } else if k > i {
        assert ds[k] == cs[k - 1];
      }
    }
  }

  lemma CoveredRemoveList(cs: seq<Node>, i: nat)
    requires i < |cs| && AllCovered(cs)
    ensures AllCovered(cs[..i] + cs[i + 1..])
  {
    var ds := cs[..i] + cs[i + 1..];
    forall k | 0 <= k < |ds|
      ensures Covered(ds[k])
    {
      if k < i {
        assert ds[k] == cs[k];
      } else {
        assert ds[k] == cs[k + 1];
      }
    }
  }

  // ---------------------------------------------------------------------------
  // Insertion

  /** The parent of `p` with a new empty element added at child position `i`. */
  function InsertIntoParent(root: Node, p: Path, i: nat): (r: Node)
    requires p != [] && IsElementAt(root, p) && IsElementAt(root, Parent(p))
    requires i <= |NodeAt(root, Parent(p)).value.children|
    ensures IsElementAt(r, Parent(p))
    ensures InsertedChild(NodeAt(root, Parent(p)).value, NodeAt(r, Parent(p)).value, i, NewEmptyDiv())
    ensures ChangedOnlyAt(root, r, Parent(p))
    ensures Keeps(root, r)
  {
    var q := Parent(p);
    var par := NodeAt(root, q).value;
    var cs := par.children;
    var par' := par.(children := cs[..i] + [NewEmptyDiv()] + cs[i..]);
    InsertedPreserves(root, q, par, par', i);
    ReplaceAtHere(root, q, par');
    ReplaceAtChangesOnly(root, q, par');
    ReplaceAt(root, q, par')
  }

  lemma InsertedPreserves(root: Node, q: Path, par: Node, par': Node, i: nat)
    requires NodeAt(root, q) == Some(par) && par.Element?
    requires i <= |par.children|
    requires par' == par.(children := par.children[..i] + [NewEmptyDiv()] + par.children[i..])
    ensures Keeps(root, ReplaceAt(root, q, par'))
  {
    var cs := par.children;
    ForestIdBagInsert(cs, i, NewEmptyDiv());
    assert IdBag(par') == IdBag(par);
    if Covered(root) {
      CoveredAt(root, q);
      CoveredInsertList(cs, i, NewEmptyDiv());
      ElementChildNotEmpty(par', i);
    }
    KeepsReplace(root, q, par');
  }

  /** `createPrev`: a new empty `div` just before the element. Refused on the root. */
  function CreatePrev(root: Node, p: Path): (r: Result<Node>)
    requires IsElementAt(root, p)
    ensures p == [] ==> r == Err(CreateBeforeRoot)
    ensures p != [] ==> && r.Ok? && IsElementAt(r.value, Parent(p))
                        && IsElementAt(root, Parent(p))
                        && InsertedChild(NodeAt(root, Parent(p)).value, NodeAt(r.value, Parent(p)).value,
                                         Last(p), NewEmptyDiv())
                        && NodeAt(r.value, Parent(p) + [Last(p) + 1]) == NodeAt(root, p)
                        && ChangedOnlyAt(root, r.value, Parent(p))
    ensures r.Ok? ==> Keeps(root, r.value)
  {
    if p == [] then Err(CreateBeforeRoot)
    else
      ParentOf(root, p);
      var r := InsertIntoParent(root, p, Last(p));
      ChildOf(r, Parent(p), Last(p) + 1);
      Ok(r)
  }

  /** `createNext`: a new empty `div` just after the element. Refused on the root. */
  function CreateNext(root: Node, p: Path): (r: Result<Node>)
    requires IsElementAt(root, p)
    ensures p == [] ==> r == Err(CreateAfterRoot)
    ensures p != [] ==> && r.Ok? && IsElementAt(r.value, Parent(p))
                        && IsElementAt(root, Parent(p))
                        && InsertedChild(NodeAt(root, Parent(p)).value, NodeAt(r.value, Parent(p)).value,
                                         Last(p) + 1, NewEmptyDiv())
                        && NodeAt(r.value, p) == NodeAt(root, p)
                        && ChangedOnlyAt(root, r.value, Parent(p))
    ensures r.Ok? ==> Keeps(root, r.value)
  {
    if p == [] then Err(CreateAfterRoot)
    else
      ParentOf(root, p);
      var r := InsertIntoParent(root, p, Last(p) + 1);
      ChildOf(r, Parent(p), Last(p));
      assert Parent(p) + [Last(p)] == p;
      Ok(r)
  }

  /** The element at `p` with a new empty child at position `i` and its empty marker dropped. */
  function InsertChild(root: Node, p: Path, i: nat): (r: Node)
    requires IsElementAt(root, p)
    requires i <= |NodeAt(root, p).value.children|
    ensures IsElementAt(r, p)
    ensures var a, b := NodeAt(root, p).value, NodeAt(r, p).value;
      && b.tag == a.tag && b.id == a.id && b.classes == RemoveClass(a.classes, EmptyMarker)
      && |b.children| == |a.children| + 1
      && b.children[..i] == a.children[..i] && b.children[i] == NewEmptyDiv()
      && b.children[i + 1..] == a.children[i..]
    ensures !Marked(NodeAt(r, p).value)
    ensures ChangedOnlyAt(root, r, p)
    ensures Keeps(root, r)
  {
    var a := NodeAt(root, p).value;
    var cs := a.children;
    var b := a.(classes := RemoveClass(a.classes, EmptyMarker), children := cs[..i] + [NewEmptyDiv()] + cs[i..]);
    ChildInsertedPreserves(root, p, a, b, i);
    ReplaceAtHere(root, p, b);
    ReplaceAtChangesOnly(root, p, b);
    ReplaceAt(root, p, b)
  }

  lemma ChildInsertedPreserves(root: Node, p: Path, a: Node, b: Node, i: nat)
    requires NodeAt(root, p) == Some(a) && a.Element?
    requires i <= |a.children|
    requires b == a.(classes := RemoveClass(a.classes, EmptyMarker),
                     children := a.children[..i] + [NewEmptyDiv()] + a.children[i..])
    ensures Keeps(root, ReplaceAt(root, p, b))
  {
    var cs := a.children;
    ForestIdBagInsert(cs, i, NewEmptyDiv());
    assert IdBag(b) == IdBag(a);
    if Covered(root) {
      CoveredAt(root, p);
      CoveredInsertList(cs, i, NewEmptyDiv());
      ElementChildNotEmpty(b, i);
    }
    KeepsReplace(root, p, b);
  }

  /** `createFirst`: drops the element's empty marker and adds a new empty `div` as
      its first child. Allowed on the root. */
  function CreateFirst(root: Node, p: Path): (r: Node)
    requires IsElementAt(root, p)
    ensures IsElementAt(r, p)
    ensures var a, b := NodeAt(root, p).value, NodeAt(r, p).value;
      && b.tag == a.tag && b.id == a.id && b.classes == RemoveClass(a.classes, EmptyMarker)
      && b.children == [NewEmptyDiv()] + a.children
    ensures !Marked(NodeAt(r, p).value)
    ensures ChangedOnlyAt(root, r, p)
    ensures Keeps(root, r)
  {
    var r := InsertChild(root, p, 0);
    assert NodeAt(r, p).value.children == [NewEmptyDiv()] + NodeAt(r, p).value.children[1..];
    r
  }

  /** `createLast`: drops the element's empty marker and adds a new empty `div` as
      its last child. Allowed on the root. */
  function CreateLast(root: Node, p: Path): (r: Node)
    requires IsElementAt(root, p)
    ensures IsElementAt(r, p)
    ensures var a, b := NodeAt(root, p).value, NodeAt(r, p).value;
      && b.tag == a.tag && b.id == a.id && b.classes == RemoveClass(a.classes, EmptyMarker)
      && b.children == a.children + [NewEmptyDiv()]
    ensures !Marked(NodeAt(r, p).value)
    ensures ChangedOnlyAt(root, r, p)
    ensures Keeps(root, r)
  {
    var n := |NodeAt(root, p).value.children|;
    var r := InsertChild(root, p, n);
    assert NodeAt(r, p).value.children == NodeAt(r, p).value.children[..n] + [NewEmptyDiv()];
    r
  }

  /** The new parent `createParent` puts in the element's place: an unmarked `div`
      whose only child is the element. */
  function Wrapper(node: Node): (r: Node)
    ensures r.Element? && r.tag == DefaultTag && r.classes == [] && r.id == ""
    ensures r.children == [node]
  {
    var created := GenerateNode("", true);
    created.(children := [node])
  }

  /** `createParent`: the element's slot now holds a new unmarked `div` whose only
      child is the element. Refused on the root. */
  function CreateParent(root: Node, p: Path): (r: Result<Node>)
    requires IsElementAt(root, p)
    ensures p == [] ==> r == Err(ReparentRoot)
    ensures p != [] ==> && r.Ok?
                        && NodeAt(r.value, p) == Some(Wrapper(NodeAt(root, p).value))
                        && NodeAt(r.value, p + [0]) == NodeAt(root, p)
                        && ChangedOnlyAt(root, r.value, p)
    ensures r.Ok? ==> Keeps(root, r.value)
  {
    if p == [] then Err(ReparentRoot)
    else
      var node := NodeAt(root, p).value;
      var wrapper := Wrapper(node);
      WrapPreserves(root, p, node, wrapper);
      ReplaceAtHere(root, p, wrapper);
      ReplaceAtBelow(root, p, wrapper, [0]);
      ReplaceAtChangesOnly(root, p, wrapper);
      Ok(ReplaceAt(root, p, wrapper))
  }

  lemma WrapPreserves(root: Node, p: Path, node: Node, wrapper: Node)
    requires NodeAt(root, p) == Some(node) && node.Element?
    requires wrapper.Element? && wrapper.id == "" && wrapper.children == [node]
    ensures Keeps(root, ReplaceAt(root, p, wrapper))
  {
    ForestIdBagSingle(node);
    assert IdBag(wrapper) == IdBag(node);
    if Covered(root) {
      CoveredAt(root, p);
      ElementChildNotEmpty(wrapper, 0);
    }
    KeepsReplace(root, p, wrapper);
  }

  // ---------------------------------------------------------------------------
  // Retag and retext

  /** The tag `generateNode` gives an element: the name asked for, or `div` when none is. */
  function TagName(name: string): (t: string)
    ensures t != ""
    ensures name != "" ==> t == name
    ensures name == "" ==> t == DefaultTag
  {
    if name == "" then DefaultTag else name
  }

  /** The replacement `replaceElement` builds: a new element created with the empty
      marker exactly when the old one did NOT carry it (the marker test is passed as
      `generateNode`'s "non-empty" flag), then given the old children, the old class
      list when that is not empty (which brings back the marker if the old element had
      it), and the old id when there is one. */
  function Retagged(prior: Node, tag: string): (r: Node)
    requires prior.Element?
    ensures r.Element? && r.children == prior.children && r.id == prior.id && r.tag == TagName(tag)
    ensures prior.classes != [] ==> r.classes == prior.classes
    ensures prior.classes == [] ==> r.classes == [EmptyMarker]
  {
    var created := GenerateNode(tag, Marked(prior));
    var filled := created.(children := prior.children);
    var classed := if prior.classes != [] then filled.(classes := prior.classes) else filled;
    if prior.id != "" then classed.(id := prior.id) else classed
  }

  /** An element with no class attribute and some content is replaced by one that
      carries the empty marker although it has the same content. */
  lemma RetagMarksContent(prior: Node, tag: string)
    requires prior.Element? && prior.classes == [] && !Empty(prior)
    ensures Marked(Retagged(prior, tag)) && !Marked(prior)
    ensures !Empty(Retagged(prior, tag))
  {
    assert ChildNodes(Retagged(prior, tag)) == ChildNodes(prior);
  }

  /** `replaceElement`: the element is replaced, at the same position, by one with the
      given tag (a `div` when none is given) that takes over its children in order,
      its class list (just the empty marker when it had none) and its id. Refused on
      the root. */
  function ReplaceElement(root: Node, p: Path, tag: string): (r: Result<Node>)
    requires IsElementAt(root, p)
    ensures p == [] ==> r == Err(RetagRoot)
    ensures p != [] ==> && r.Ok? && IsElementAt(r.value, p)
                        && ChangedOnlyAt(root, r.value, p)
                        && var a, b := NodeAt(root, p).value, NodeAt(r.value, p).value;
                           && b.tag == TagName(tag) && b.children == a.children && b.id == a.id
                           && b.classes == (if a.classes != [] then a.classes else [EmptyMarker])
    ensures r.Ok? ==> Keeps(root, r.value)
  {
    if p == [] then Err(RetagRoot)
    else
      var prior := NodeAt(root, p).value;
      var repl := Retagged(prior, tag);
      RetagPreserves(root, p, prior, repl);
      ReplaceAtHere(root, p, repl);
      ReplaceAtChangesOnly(root, p, repl);
      Ok(ReplaceAt(root, p, repl))
  }

  lemma RetagPreserves(root: Node, p: Path, prior: Node, repl: Node)
    requires NodeAt(root, p) == Some(prior) && prior.Element?
    requires repl.Element? && repl.children == prior.children && repl.id == prior.id
    requires Marked(prior) ==> Marked(repl)
    ensures Keeps(root, ReplaceAt(root, p, repl))
  {
    assert IdBag(repl) == IdBag(prior);
    if Covered(root) {
      CoveredAt(root, p);
      assert ChildNodes(repl) == ChildNodes(prior);
    }
    KeepsReplace(root, p, repl);
  }

  /** `replaceText`: the element's children become a single text node holding `text`,
      and it carries the empty marker exactly when `text` is whitespace only. Its
      other classes, tag and id stay. Allowed on the root. */
  function ReplaceText(root: Node, p: Path, text: string): (r: Node)
    requires IsElementAt(root, p)
    ensures IsElementAt(r, p)
    ensures var a, b := NodeAt(root, p).value, NodeAt(r, p).value;
      && b.tag == a.tag && b.id == a.id && b.children == [Text(text)]
      && (Marked(b) <==> Whitespace.Blank(text))
      && (forall c :: c != EmptyMarker ==> (c in b.classes <==> c in a.classes))
    ensures ChangedOnlyAt(root, r, p)
    ensures Keeps(root, r)
  {
    var a := NodeAt(root, p).value;
    var withText := a.(children := [Text(text)]);
    var b := if Empty(withText) then withText.(classes := AddClass(a.classes, EmptyMarker))
             else withText.(classes := RemoveClass(a.classes, EmptyMarker));
    assert Empty(withText) <==> Whitespace.Blank(text) by {
      assert ChildNodes(withText) == [Text(text)];
      assert Ignorable(Text(text)) <==> Whitespace.Blank(text);
      assert Empty(withText) <==> Ignorable(ChildNodes(withText)[0]);
    }
    assert ChildNodes(b) == ChildNodes(withText);
    TextPreserves(root, p, a, b);
    ReplaceAtHere(root, p, b);
    ReplaceAtChangesOnly(root, p, b);
    ReplaceAt(root, p, b)
  }

  lemma TextPreserves(root: Node, p: Path, a: Node, b: Node)
    requires NodeAt(root, p) == Some(a) && a.Element?
    requires b.Element? && b.id == a.id && |b.children| == 1 && b.children[0].Text?
    requires Empty(b) ==> Marked(b)
    ensures Keeps(root, ReplaceAt(root, p, b))
  {
    assert b.children == [b.children[0]];
    ForestIdBagSingle(b.children[0]);
    assert IdBag(b) == OwnId(a);
    KeepsReplace(root, p, b);
  }

  // ---------------------------------------------------------------------------
  // Removal and ids

  /** `removeNode`: the element leaves its parent's children, the other children keep
      their order, and the parent gains the empty marker if it is now empty (it never
      loses one). Refused on the root. */
  function RemoveNode(root: Node, p: Path): (r: Result<Node>)
    requires IsElementAt(root, p)
    ensures p == [] ==> r == Err(RemoveRoot)
    ensures p != [] ==> && r.Ok? && IsElementAt(r.value, Parent(p)) && IsElementAt(root, Parent(p))
                        && var a, b := NodeAt(root, Parent(p)).value, NodeAt(r.value, Parent(p)).value;
                           && Last(p) < |a.children|
                           && b.children == a.children[..Last(p)] + a.children[Last(p) + 1..]
                           && b.tag == a.tag && b.id == a.id
                           && b.classes == (if Empty(b) then AddClass(a.classes, EmptyMarker) else a.classes)
    ensures p != [] ==> ChangedOnlyAt(root, r.value, Parent(p))
    ensures r.Ok? ==> Keeps(root, r.value)
  {
    if p == [] then Err(RemoveRoot)
    else
      ParentOf(root, p);
      var q, i := Parent(p), Last(p);
      var a := NodeAt(root, q).value;
      var rest := a.(children := a.children[..i] + a.children[i + 1..]);
      var b := if Empty(rest) then rest.(classes := AddClass(a.classes, EmptyMarker)) else rest;
      assert Empty(b) == Empty(rest) by {
        assert ChildNodes(b) == ChildNodes(rest);
      }
      assert q + [i] == p;
      RemovePreserves(root, q, a, b, i);
      ReplaceAtHere(root, q, b);
      ReplaceAtChangesOnly(root, q, b);
      Ok(ReplaceAt(root, q, b))
  }

  lemma RemovePreserves(root: Node, q: Path, a: Node, b: Node, i: nat)
    requires NodeAt(root, q) == Some(a) && a.Element? && i < |a.children|
    requires b.Element? && b.id == a.id && b.children == a.children[..i] + a.children[i + 1..]
    requires Empty(b) ==> Marked(b)
    ensures Keeps(root, ReplaceAt(root, q, b))
  {
    var cs := a.children;
    ForestIdBagRemove(cs, i);
    forall x
      ensures IdBag(b)[x] <= IdBag(a)[x]
    {
      assert (ForestIdBag(b.children) + IdBag(cs[i]))[x] == ForestIdBag(cs)[x];
    }
    if Covered(root) {
      CoveredAt(root, q);
      CoveredRemoveList(cs, i);
    }
    KeepsReplace(root, q, b);
  }

  /** `editID`: an empty id removes the attribute; an id with whitespace is refused;
      an id some element of the document already carries is refused, even when that
      element is this one; any other id is set. */
  function EditId(root: Node, p: Path, id: string): (r: Result<Node>)
    requires IsElementAt(root, p)
    ensures id == "" ==> r.Ok?
    ensures id != "" && !Whitespace.NoSpace(id) ==> r == Err(InvalidId)
    ensures Whitespace.NoSpace(id) && IdInUse(root, id) ==> r == Err(DuplicateId)
    ensures Whitespace.NoSpace(id) && !IdInUse(root, id) ==> r.Ok?
    ensures r.Ok? ==> && IsElementAt(r.value, p)
                      && NodeAt(r.value, p) == Some(NodeAt(root, p).value.(id := id))
                      && ChangedOnlyAt(root, r.value, p)
                      && Keeps(root, r.value)
    ensures r.Ok? && id != "" ==> IdInUse(r.value, id)
  {
    var a := NodeAt(root, p).value;
    if id != "" && !Whitespace.NoSpace(id) then Err(InvalidId)
    else if id != "" && IdInUse(root, id) then Err(DuplicateId)
    else
      var b := a.(id := id);
      IdPreserves(root, p, a, b);
      ReplaceAtHere(root, p, b);
      ReplaceAtChangesOnly(root, p, b);
      Ok(ReplaceAt(root, p, b))
  }

  lemma IdPreserves(root: Node, p: Path, a: Node, b: Node)
    requires NodeAt(root, p) == Some(a) && a.Element?
    requires b.Element? && b.tag == a.tag && b.classes == a.classes && b.children == a.children
    requires b.id != "" ==> !IdInUse(root, b.id)
    ensures Keeps(root, ReplaceAt(root, p, b))
    ensures b.id != "" ==> IdInUse(ReplaceAt(root, p, b), b.id)
  {
    var r := ReplaceAt(root, p, b);
    ReplaceAtHere(root, p, b);
    IdBagAt(r, p);
    if UniqueIds(root) {
      IdUnique(root, p, a, b);
    }
    if Covered(root) {
      CoveredAt(root, p);
      assert ChildNodes(b) == ChildNodes(a);
      CoveredReplace(root, p, b);
    }
  }

  /** Giving an element an id no element carries keeps ids unique. */
  lemma IdUnique(root: Node, p: Path, a: Node, b: Node)
    requires NodeAt(root, p) == Some(a) && a.Element? && UniqueIds(root)
    requires b.Element? && b.children == a.children
    requires b.id != "" ==> !IdInUse(root, b.id)
    ensures UniqueIds(ReplaceAt(root, p, b))
  {
    IdBagReplace(root, p, b);
    var F := ForestIdBag(a.children);
    assert IdBag(a) == OwnId(a) + F;
    assert IdBag(b) == OwnId(b) + F;
    SwapUnique(IdBag(ReplaceAt(root, p, b)), IdBag(root), OwnId(a), OwnId(b), F, b.id);
  }

  /** The multiset step of `IdUnique`: trading `oa` for at most one copy of an
      absent `id` leaves every count at most one. */
  lemma SwapUnique(r: multiset<string>, t: multiset<string>, oa: multiset<string>,
                   ob: multiset<string>, f: multiset<string>, id: string)
    requires r + (oa + f) == t + (ob + f)
    requires forall x | x in t :: t[x] <= 1
    requires ob <= multiset{id} && (ob != multiset{} ==> id !in t)
    ensures forall x | x in r :: r[x] <= 1
  {
    forall x | x in r
      ensures r[x] <= 1
    {
      assert (r + (oa + f))[x] == (t + (ob + f))[x];
      if x != id {
        assert ob[x] == 0;
      }
    }
  }
}
