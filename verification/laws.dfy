/** How the tree edits of `DartMarkActions` relate to one another: the insertions are
    undone by removing what they inserted, a retag is undone by retagging back,
    setting the text twice is setting it once, and an id edit is undone by restoring
    the old id (and refuses to be repeated). */
module ActionLaws {
  import opened Results
  import opened Tree
  import opened Actions
  import Whitespace

  /** Removing the element `createPrev` just inserted gives the document back. */
  lemma RemoveUndoesCreatePrev(root: Node, p: Path)
    requires IsElementAt(root, p) && p != []
    ensures IsElementAt(CreatePrev(root, p).value, p)
    ensures RemoveNode(CreatePrev(root, p).value, p) == Ok(root)
  {
    var q, i := Parent(p), Last(p);
    ParentOf(root, p);
    var par := NodeAt(root, q).value;
    var cs := par.children;
    var par' := par.(children := cs[..i] + [NewEmptyDiv()] + cs[i..]);
    assert CreatePrev(root, p).value == ReplaceAt(root, q, par');
    assert q + [i] == p;
    RemoveRestores(root, q, i, par, par');
  }

  /** Removing the element `createNext` just inserted gives the document back. */
  lemma RemoveUndoesCreateNext(root: Node, p: Path)
    requires IsElementAt(root, p) && p != []
    ensures IsElementAt(CreateNext(root, p).value, Parent(p) + [Last(p) + 1])
    ensures RemoveNode(CreateNext(root, p).value, Parent(p) + [Last(p) + 1]) == Ok(root)
  {
    var q, i := Parent(p), Last(p);
    ParentOf(root, p);
    var par := NodeAt(root, q).value;
    var cs := par.children;
    var par' := par.(children := cs[..i + 1] + [NewEmptyDiv()] + cs[i + 1..]);
    assert CreateNext(root, p).value == ReplaceAt(root, q, par');
    RemoveRestores(root, q, i + 1, par, par');
  }

  /** The common step: the element at `q` gained a new empty `div` at position `i`
      next to an element child; removing the child at `q + [i]` restores the element
      and with it the document. */
  lemma RemoveRestores(root: Node, q: Path, i: nat, par: Node, par': Node)
    requires NodeAt(root, q) == Some(par) && par.Element? && i <= |par.children|
    requires par' == par.(children := par.children[..i] + [NewEmptyDiv()] + par.children[i..])
    requires (i < |par.children| && par.children[i].Element?) || (0 < i && par.children[i - 1].Element?)
    ensures IsElementAt(ReplaceAt(root, q, par'), q + [i])
    ensures RemoveNode(ReplaceAt(root, q, par'), q + [i]) == Ok(root)
  {
    var r1 := ReplaceAt(root, q, par');
    ReplaceAtHere(root, q, par');
    ChildOf(r1, q, i);
    var rest := par'.(children := par'.children[..i] + par'.children[i + 1..]);
    assert rest.children == par.children by {
      assert par'.children[..i] == par.children[..i];
      assert par'.children[i + 1..] == par.children[i..];
    }
    if i < |par.children| && par.children[i].Element? {
      ElementChildNotEmpty(par, i);
    } else {
      ElementChildNotEmpty(par, i - 1);
    }
    assert RemoveNode(r1, q + [i]) == Ok(ReplaceAt(r1, q, par));
    ReplaceAtTwice(root, q, par', par);
    ReplaceAtSame(root, q);
  }

  /** Retagging back to the old tag gives the document back, provided the element has
      a class; without one it comes back carrying the empty marker. */
  lemma RetagRoundTrip(root: Node, p: Path, tag: string)
    requires IsElementAt(root, p) && p != []
    requires NodeAt(root, p).value.tag != ""
    ensures ReplaceElement(root, p, tag).Ok?
    ensures var a := NodeAt(root, p).value;
      var back := ReplaceElement(ReplaceElement(root, p, tag).value, p, a.tag);
      && back.Ok?
      && (a.classes != [] <==> back == Ok(root))
  {
    var a := NodeAt(root, p).value;
    var a1 := a.(tag := TagName(tag), classes := if a.classes != [] then a.classes else [EmptyMarker]);
    var r1 := ReplaceElement(root, p, tag).value;
    assert r1 == ReplaceAt(root, p, a1);
    ReplaceAtHere(root, p, a1);
    var a2 := a1.(tag := a.tag);
    assert ReplaceElement(r1, p, a.tag) == Ok(ReplaceAt(r1, p, a2));
    ReplaceAtTwice(root, p, a1, a2);
    if a.classes != [] {
      assert a2 == a;
      ReplaceAtSame(root, p);
    } else {
      ReplaceAtHere(root, p, a2);
      assert a2 != a;
    }
  }

  /** Setting the same text twice is setting it once. */
  lemma ReplaceTextIdempotent(root: Node, p: Path, text: string)
    requires IsElementAt(root, p)
    ensures ReplaceText(ReplaceText(root, p, text), p, text) == ReplaceText(root, p, text)
  {
    var a := NodeAt(root, p).value;
    var withText := a.(children := [Text(text)]);
    var b := if Empty(withText) then withText.(classes := AddClass(a.classes, EmptyMarker))
             else withText.(classes := RemoveClass(a.classes, EmptyMarker));
    var r1 := ReplaceAt(root, p, b);
    assert ReplaceText(root, p, text) == r1;
    ReplaceAtHere(root, p, b);
    assert ChildNodes(b) == ChildNodes(withText);
    assert b.(children := [Text(text)]) == b;
    var b' := if Empty(b) then b.(classes := AddClass(b.classes, EmptyMarker))
              else b.(classes := RemoveClass(b.classes, EmptyMarker));
    assert b' == b;
    assert ReplaceText(r1, p, text) == ReplaceAt(r1, p, b');
    ReplaceAtTwice(root, p, b, b);
  }

  /** An id just set cannot be set again on the same element: the document lookup
      finds the element itself. */
  lemma EditIdTwice(root: Node, p: Path, id: string)
    requires IsElementAt(root, p) && Whitespace.NoSpace(id) && EditId(root, p, id).Ok?
    ensures EditId(EditId(root, p, id).value, p, id) == Err(DuplicateId)
  {
  }

  /** With unique ids, setting a new id and then restoring the old one (or removing
      the id again when there was none) gives the document back. */
  lemma EditIdUndo(root: Node, p: Path, id: string)
    requires IsElementAt(root, p) && UniqueIds(root)
    requires var prev := NodeAt(root, p).value.id; prev == "" || Whitespace.NoSpace(prev)
    requires EditId(root, p, id).Ok?
    ensures EditId(EditId(root, p, id).value, p, NodeAt(root, p).value.id) == Ok(root)
  {
    var a := NodeAt(root, p).value;
    var b := a.(id := id);
    var r1 := EditId(root, p, id).value;
    assert r1 == ReplaceAt(root, p, b);
    if a.id != "" {
      IdBagAt(root, p);
      IdBagReplace(root, p, b);
      var F := ForestIdBag(a.children);
      assert IdBag(a) == OwnId(a) + F;
      assert IdBag(b) == OwnId(b) + F;
      assert a.id != id;
      assert (IdBag(r1) + (OwnId(a) + F))[a.id] == (IdBag(root) + (OwnId(b) + F))[a.id];
      assert !IdInUse(r1, a.id);
    }
    ReplaceAtHere(root, p, b);
    assert b.(id := a.id) == a;
    ReplaceAtTwice(root, p, b, a);
    ReplaceAtSame(root, p);
  }
}
