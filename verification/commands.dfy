/** The editing commands of `DartMark`: each needs a cursor, runs one tree edit on the
    element under it, and leaves the cursor on the element the user expects, which,
    after an edit that shifts positions, has a new index path.

    A command that asks the user for input through a prompt takes the answer as a
    parameter; `None` is a cancelled prompt, after which nothing changes. */
module Commands {
  import opened Results
  import opened Tree
  import opened Walker
  import opened Editor
  import Actions
  import ActionLaws

  /** A tree in which some path leads to an element has an element at its root. */
  lemma RootStays(n: Node, p: Path)
    requires IsElementAt(n, p)
    ensures n.Element?
  {
    if p != [] {
      assert ChildAt(n, p[0]).Some?;
    }
  }

  /** `createPrev`: the cursor stays on its element, which has moved one place on. */
  function CreatePrev(e: Editor): (r: Result<Editor>)
    requires Valid(e)
    ensures e.cursor.None? ==> r == Err(NoNodeSelected)
    ensures e.cursor == Some([]) ==> r == Err(CreateBeforeRoot)
    ensures e.cursor.Some? && e.cursor.value != [] ==> r.Ok?
    ensures r.Ok? ==> && Valid(r.value) && Actions.Keeps(e.root, r.value.root)
                      && r.value.root == Actions.CreatePrev(e.root, e.cursor.value).value
                      && r.value.cursor == Some(Parent(e.cursor.value) + [Last(e.cursor.value) + 1])
                      && NodeAt(r.value.root, r.value.cursor.value) == NodeAt(e.root, e.cursor.value)
  {
    match e.cursor
    case None => Err(NoNodeSelected)
    case Some(p) =>
      match Actions.CreatePrev(e.root, p)
      case Err(err) => Err(err)
      case Ok(root') =>
        RootStays(root', Parent(p));
        Ok(Editor(root', Some(Parent(p) + [Last(p) + 1])))
  }

  /** `createNext`: the cursor stays where it is. */
  function CreateNext(e: Editor): (r: Result<Editor>)
    requires Valid(e)
    ensures e.cursor.None? ==> r == Err(NoNodeSelected)
    ensures e.cursor == Some([]) ==> r == Err(CreateAfterRoot)
    ensures e.cursor.Some? && e.cursor.value != [] ==> r.Ok?
    ensures r.Ok? ==> && Valid(r.value) && Actions.Keeps(e.root, r.value.root)
                      && r.value.root == Actions.CreateNext(e.root, e.cursor.value).value
                      && r.value.cursor == e.cursor
                      && NodeAt(r.value.root, r.value.cursor.value) == NodeAt(e.root, e.cursor.value)
  {
    match e.cursor
    case None => Err(NoNodeSelected)
    case Some(p) =>
      match Actions.CreateNext(e.root, p)
      case Err(err) => Err(err)
      case Ok(root') =>
        RootStays(root', Parent(p));
        Ok(Editor(root', Some(p)))
  }

  /** `createFirst`: the element gains a first child; the cursor stays on the element. */
  function CreateFirst(e: Editor): (r: Result<Editor>)
    requires Valid(e)
    ensures e.cursor.None? <==> r == Err(NoNodeSelected)
    ensures e.cursor.Some? ==> r.Ok?
    ensures r.Ok? ==> && Valid(r.value) && Actions.Keeps(e.root, r.value.root)
                      && r.value.root == Actions.CreateFirst(e.root, e.cursor.value)
                      && r.value.cursor == e.cursor
                      && NodeAt(r.value.root, e.cursor.value).value.children
                         == [Actions.NewEmptyDiv()] + NodeAt(e.root, e.cursor.value).value.children
  {
    match e.cursor
    case None => Err(NoNodeSelected)
    case Some(p) =>
      var root' := Actions.CreateFirst(e.root, p);
      RootStays(root', p);
      Ok(Editor(root', Some(p)))
  }

  /** `createLast`: the element gains a last child; the cursor stays on the element. */
  function CreateLast(e: Editor): (r: Result<Editor>)
    requires Valid(e)
    ensures e.cursor.None? <==> r == Err(NoNodeSelected)
    ensures e.cursor.Some? ==> r.Ok?
    ensures r.Ok? ==> && Valid(r.value) && Actions.Keeps(e.root, r.value.root)
                      && r.value.root == Actions.CreateLast(e.root, e.cursor.value)
                      && r.value.cursor == e.cursor
                      && NodeAt(r.value.root, e.cursor.value).value.children
                         == NodeAt(e.root, e.cursor.value).value.children + [Actions.NewEmptyDiv()]
  {
    match e.cursor
    case None => Err(NoNodeSelected)
    case Some(p) =>
      var root' := Actions.CreateLast(e.root, p);
      RootStays(root', p);
      Ok(Editor(root', Some(p)))
  }

  /** `createParent`: the cursor stays on its element, now one level deeper. */
  function CreateParent(e: Editor): (r: Result<Editor>)
    requires Valid(e)
    ensures e.cursor.None? ==> r == Err(NoNodeSelected)
    ensures e.cursor == Some([]) ==> r == Err(ReparentRoot)
    ensures e.cursor.Some? && e.cursor.value != [] ==> r.Ok?
    ensures r.Ok? ==> && Valid(r.value) && Actions.Keeps(e.root, r.value.root)
                      && r.value.root == Actions.CreateParent(e.root, e.cursor.value).value
                      && r.value.cursor == Some(e.cursor.value + [0])
                      && NodeAt(r.value.root, r.value.cursor.value) == NodeAt(e.root, e.cursor.value)
  {
    match e.cursor
    case None => Err(NoNodeSelected)
    case Some(p) =>
      match Actions.CreateParent(e.root, p)
      case Err(err) => Err(err)
      case Ok(root') =>
        RootStays(root', p);
        Ok(Editor(root', Some(p + [0])))
  }

  /** `editID` with the prompt's answer; the cursor stays on the element. */
  function EditId(e: Editor, answer: Option<string>): (r: Result<Editor>)
    requires Valid(e)
    ensures e.cursor.None? <==> r == Err(NoNodeSelected)
    ensures e.cursor.Some? && answer.None? ==> r == Ok(e)
    ensures e.cursor.Some? && answer.Some? ==>
      && (r.Ok? <==> Actions.EditId(e.root, e.cursor.value, answer.value).Ok?)
      && (r.Err? ==> r.error == Actions.EditId(e.root, e.cursor.value, answer.value).error)
      && (r.Ok? ==> r.value.root == Actions.EditId(e.root, e.cursor.value, answer.value).value)
    ensures r.Ok? ==> && Valid(r.value) && Actions.Keeps(e.root, r.value.root)
                      && r.value.cursor == e.cursor
                      && var n := NodeAt(r.value.root, e.cursor.value).value;
                         n.id == (if answer.Some? then answer.value else NodeAt(e.root, e.cursor.value).value.id)
  {
    match e.cursor
    case None => Err(NoNodeSelected)
    case Some(p) =>
      match answer
      case None => Ok(e)
      case Some(id) =>
        match Actions.EditId(e.root, p, id)
        case Err(err) => Err(err)
        case Ok(root') =>
          RootStays(root', p);
          Ok(Editor(root', Some(p)))
  }

  /** `replaceText` with the prompt's answer; the cursor stays on the element. */
  function ReplaceText(e: Editor, answer: Option<string>): (r: Result<Editor>)
    requires Valid(e)
    ensures e.cursor.None? <==> r == Err(NoNodeSelected)
    ensures e.cursor.Some? ==> r.Ok?
    ensures e.cursor.Some? && answer.None? ==> r == Ok(e)
    ensures r.Ok? ==> && Valid(r.value) && Actions.Keeps(e.root, r.value.root)
                      && r.value.cursor == e.cursor
    ensures r.Ok? && answer.Some? ==>
      && r.value.root == Actions.ReplaceText(e.root, e.cursor.value, answer.value)
      && NodeAt(r.value.root, e.cursor.value).value.children == [Text(answer.value)]
  {
    match e.cursor
    case None => Err(NoNodeSelected)
    case Some(p) =>
      match answer
      case None => Ok(e)
      case Some(text) =>
        var root' := Actions.ReplaceText(e.root, p, text);
        RootStays(root', p);
        Ok(Editor(root', Some(p)))
  }

  /** `replaceElement` with the prompt's answer; the cursor moves to the replacement,
      which sits where the old element was. */
  function ReplaceElement(e: Editor, answer: Option<string>): (r: Result<Editor>)
    requires Valid(e)
    ensures e.cursor.None? ==> r == Err(NoNodeSelected)
    ensures e.cursor.Some? && answer.None? ==> r == Ok(e)
    ensures e.cursor == Some([]) && answer.Some? ==> r == Err(RetagRoot)
    ensures e.cursor.Some? && e.cursor.value != [] ==> r.Ok?
    ensures r.Ok? ==> && Valid(r.value) && Actions.Keeps(e.root, r.value.root)
                      && r.value.cursor == e.cursor
    ensures r.Ok? && answer.Some? ==>
      && r.value.root == Actions.ReplaceElement(e.root, e.cursor.value, answer.value).value
      && NodeAt(r.value.root, e.cursor.value).value.tag == Actions.TagName(answer.value)
  {
    match e.cursor
    case None => Err(NoNodeSelected)
    case Some(p) =>
      match answer
      case None => Ok(e)
      case Some(tag) =>
        match Actions.ReplaceElement(e.root, p, tag)
        case Err(err) => Err(err)
        case Ok(root') =>
          RootStays(root', p);
          Ok(Editor(root', Some(p)))
  }

  /** Where `removeNode` puts the cursor, worked out before the removal: the next
      element sibling, else the previous one, else the parent. A next sibling moves
      back one place once the element is gone. */
  function CursorAfterRemoval(root: Node, p: Path): (c: Path)
    requires IsElementAt(root, p) && p != []
    ensures c == Parent(p) || (c != [] && Parent(c) == Parent(p) && Last(c) < |SiblingsOf(root, p)| - 1)
  {
    var cs := SiblingsOf(root, p);
    match FirstElementFrom(cs, Last(p) + 1)
    case Some(j) => Parent(p) + [j - 1]
    case None =>
      match LastElementBefore(cs, Last(p))
      case Some(j) => Parent(p) + [j]
      case None => Parent(p)
  }

  /** `removeNode`: the element is removed and the cursor goes to the next element
      sibling, else the previous one, else the parent. On the root the removal is
      refused and the cursor stays. */
  function RemoveNode(e: Editor): (r: Result<Editor>)
    requires Valid(e)
    ensures e.cursor.None? ==> r == Err(NoNodeSelected)
    ensures e.cursor == Some([]) ==> r == Err(RemoveRoot)
    ensures e.cursor.Some? && e.cursor.value != [] ==> r.Ok?
    ensures r.Ok? ==> && Valid(r.value) && Actions.Keeps(e.root, r.value.root)
                      && r.value.root == Actions.RemoveNode(e.root, e.cursor.value).value
                      && r.value.cursor.Some?
    ensures r.Ok? ==>
      var p, c := e.cursor.value, r.value.cursor.value;
      var cs := SiblingsOf(e.root, p);
      match FirstElementFrom(cs, Last(p) + 1)
      case Some(j) => c == Parent(p) + [j - 1] && NodeAt(r.value.root, c) == Some(cs[j])
      case None =>
        match LastElementBefore(cs, Last(p))
        case Some(j) => c == Parent(p) + [j] && NodeAt(r.value.root, c) == Some(cs[j])
        case None => c == Parent(p)
  {
    match e.cursor
    case None => Err(NoNodeSelected)
    case Some(p) =>
      match Actions.RemoveNode(e.root, p)
      case Err(err) => Err(err)
      case Ok(root') =>
        RemovalCursor(e.root, p, root');
        RootStays(root', Parent(p));
        Ok(Editor(root', Some(CursorAfterRemoval(e.root, p))))
  }

  /** The cursor `removeNode` picks names, in the new tree, the sibling it was worked
      out from (or the parent): all the removal has to leave is the parent, with the
      node taken out of its children. */
  lemma RemovalCursor(root: Node, p: Path, root': Node)
    requires IsElementAt(root, p) && p != [] && IsElementAt(root', Parent(p))
    requires var cs := SiblingsOf(root, p);
      NodeAt(root', Parent(p)).value.children == cs[..Last(p)] + cs[Last(p) + 1..]
    ensures IsElementAt(root', CursorAfterRemoval(root, p))
    ensures var cs, c := SiblingsOf(root, p), CursorAfterRemoval(root, p);
      match FirstElementFrom(cs, Last(p) + 1)
      case Some(j) => c == Parent(p) + [j - 1] && NodeAt(root', c) == Some(cs[j])
      case None =>
        match LastElementBefore(cs, Last(p))
        case Some(j) => c == Parent(p) + [j] && NodeAt(root', c) == Some(cs[j])
        case None => c == Parent(p)
  {
    var q, i := Parent(p), Last(p);
    var cs := SiblingsOf(root, p);
    var c := CursorAfterRemoval(root, p);
    match FirstElementFrom(cs, i + 1)
    case Some(j) =>
      assert c == q + [j - 1];
      SpliceIndex(cs, i, j);
      ChildOf(root', q, j - 1);
    case None =>
      match LastElementBefore(cs, i)
      case Some(j) =>
        assert c == q + [j];
        SpliceIndex(cs, i, j);
        ChildOf(root', q, j);
      case None =>
        assert c == q;
  }

  /** With entry `i` taken out, the entries before it keep their positions and those
      after it move back one. */
  lemma SpliceIndex(cs: seq<Node>, i: nat, j: nat)
    requires i < |cs| && j < |cs| && j != i
    ensures j < i ==> (cs[..i] + cs[i + 1..])[j] == cs[j]
    ensures i < j ==> (cs[..i] + cs[i + 1..])[j - 1] == cs[j]
  {
  }

  /** The keyboard way to take back `createPrev`: step onto the new element with
      `movePrev` and remove it. The document and the cursor are as before. */
  lemma UndoCreatePrev(e: Editor)
    requires Valid(e) && e.cursor.Some? && e.cursor.value != []
    ensures CreatePrev(e).Ok?
    ensures RemoveNode(MovePrev(CreatePrev(e).value)) == Ok(e)
  {
    var p := e.cursor.value;
    var q, i := Parent(p), Last(p);
    ParentOf(e.root, p);
    var par := NodeAt(e.root, q).value;
    var cs := par.children;
    var par' := par.(children := cs[..i] + [Actions.NewEmptyDiv()] + cs[i..]);
    var e1 := CreatePrev(e).value;
    assert e1.root == ReplaceAt(e.root, q, par');
    ReplaceAtHere(e.root, q, par');
    assert e1.cursor == Some(q + [i + 1]);
    var e2 := MovePrev(e1);
    assert SiblingsOf(e1.root, q + [i + 1]) == par'.children;
    assert par'.children[i].Element?;
    assert LastElementBefore(par'.children, i + 1) == Some(i);
    assert e2.cursor == Some(q + [i]);
    ActionLaws.RemoveUndoesCreatePrev(e.root, p);
    assert SiblingsOf(e1.root, q + [i]) == par'.children;
    assert FirstElementFrom(par'.children, i + 1) == Some(i + 1);
    assert CursorAfterRemoval(e1.root, q + [i]) == q + [i];
    assert q + [i] == p;
  }
}
