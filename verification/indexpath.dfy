/** The index-path addressor: `getIndexFromElement` turns a node reference into the
    list of child positions that leads to it from the root, and `getElementFromIndex`
    follows such a list back down.

    A DOM node reference can reach its parent and its previous siblings. It is
    modelled as a location: the node together with its ancestors, each seen from
    below as a frame that holds the ancestor's own attributes and the children on
    either side of the way down. */
module IndexPath {
  import opened Results
  import opened Tree

  /** An ancestor with a hole where the way down passes: `before` are the
      children preceding the hole, `after` those following it. */
  datatype Frame = Frame(tag: string, classes: seq<string>, id: string, before: seq<Node>, after: seq<Node>)

  /** A node and its ancestors, the root's frame first and the parent's last. */
  datatype Location = Location(node: Node, ancestors: seq<Frame>)

  /** The ancestor a frame describes, with `n` put back into the hole. */
  function Fill(f: Frame, n: Node): Node {
    Element(f.tag, f.classes, f.id, f.before + [n] + f.after)
  }

  /** The root a location belongs to. */
  function Plug(n: Node, frames: seq<Frame>): Node
    decreases |frames|
  {
    if frames == [] then n else Fill(frames[0], Plug(n, frames[1..]))
  }

  function RootOf(loc: Location): Node {
    Plug(loc.node, loc.ancestors)
  }

  /** `getIndexFromElement`: climbs from the node to the root; at each level it counts
      the preceding siblings of every kind (text and comments included) and puts
      that count in front of the path gathered so far. */
  method GetIndexFromElement(loc: Location) returns (index: Path)
    ensures |index| == |loc.ancestors|
    ensures forall k :: 0 <= k < |index| ==> index[k] == |loc.ancestors[k].before|
    ensures NodeAt(RootOf(loc), index) == Some(loc.node)
  {
    var frames := loc.ancestors;
    index := [];
    var k := |frames|;
    while k > 0
      invariant 0 <= k <= |frames|
      invariant |index| == |frames| - k
      invariant forall t :: 0 <= t < |index| ==> index[t] == |frames[k + t].before|
      invariant NodeAt(Plug(loc.node, frames[k..]), index) == Some(loc.node)
    {
      k := k - 1;
      var below := Plug(loc.node, frames[k + 1..]);
      assert frames[k..][1..] == frames[k + 1..];
      assert Plug(loc.node, frames[k..]) == Fill(frames[k], below);
      var i := |frames[k].before|;
      assert Fill(frames[k], below).children[i] == below;
      assert ([i] + index)[1..] == index;
      index := [i] + index;
    }
    assert frames[0..] == frames;
  }

  /** `getElementFromIndex`: follows the path down from the root, giving up (no node)
      as soon as a step finds no node. */
  method GetElementFromIndex(root: Node, index: Path) returns (r: Option<Node>)
    ensures r == NodeAt(root, index)
    ensures r.Some? ==> && Focus(root, index).Some?
                        && RootOf(Focus(root, index).value) == root
                        && Focus(root, index).value.node == r.value
  {
    var node := Some(root);
    var i := 0;
    while i < |index|
      invariant 0 <= i <= |index|
      invariant node == NodeAt(root, index[..i])
    {
      if node.None? {
        NodeAtConcat(root, index[..i], index[i..]);
        assert index[..i] + index[i..] == index;
        return None;
      }
      NodeAtChild(root, index[..i], index[i]);
      assert index[..i + 1] == index[..i] + [index[i]];
      node := ChildAt(node.value, index[i]);
      i := i + 1;
    }
    assert index[..i] == index;
    if node.Some? {
      FocusRoundTrip(root, index);
    }
    return node;
  }

  /** The location a path names, when it names a node. */
  function Focus(root: Node, p: Path): Option<Location>
    decreases |p|
  {
    if p == [] then Some(Location(root, []))
    else if root.Element? && p[0] < |root.children| then
      var cs, i := root.children, p[0];
      match Focus(cs[i], p[1..])
      case Some(loc) =>
        Some(Location(loc.node, [Frame(root.tag, root.classes, root.id, cs[..i], cs[i + 1..])] + loc.ancestors))
      case None => None
    else None
  }

  /** Going down a path and back up again: the location the path names belongs to
      the same root, holds the node the path leads to, and climbing from it yields the
      path again. */
  lemma {:induction false} FocusRoundTrip(root: Node, p: Path)
    requires NodeAt(root, p).Some?
    ensures Focus(root, p).Some?
    ensures RootOf(Focus(root, p).value) == root
    ensures Focus(root, p).value.node == NodeAt(root, p).value
    ensures |Focus(root, p).value.ancestors| == |p|
    ensures forall k :: 0 <= k < |p| ==> |Focus(root, p).value.ancestors[k].before| == p[k]
    decreases |p|
  {
    if p != [] {
      var cs, i := root.children, p[0];
      FocusRoundTrip(cs[i], p[1..]);
      var loc := Focus(cs[i], p[1..]).value;
      var f := Frame(root.tag, root.classes, root.id, cs[..i], cs[i + 1..]);
      var frames := [f] + loc.ancestors;
      assert frames[1..] == loc.ancestors;
      assert Plug(loc.node, frames) == Fill(f, Plug(loc.node, loc.ancestors));
      assert cs[..i] + [cs[i]] + cs[i + 1..] == cs;
      forall k | 0 <= k < |p|
        ensures |frames[k].before| == p[k]
      {
        if k > 0 {
          assert frames[k] == loc.ancestors[k - 1];
        }
      }
    }
  }
}
