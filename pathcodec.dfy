/** Locating a node by the child index at every level below the document
    (`getNodePath`, `resolveNodePath`) and bounding a stored offset by the node's length
    (`clampOffset`). Paths are what the highlighter stores, because node references do not
    survive a page reload. */
module PathCodec {
  import opened Wrappers
  import opened Dom

  /** The child index at every level from the root of the tree down to the node. */
  function NodePath(c: Cursor): (p: seq<nat>)
    ensures |p| == |c.up|
    decreases |c.up|
  {
    if c.up == [] then [] else NodePath(Parent(c)) + [Index(c)]
  }

  /** `index` names a child of the node `c` refers to. */
  predicate Fits(c: Cursor, index: int)
  {
    c.focus.Elem? && 0 <= index < |c.focus.kids|
  }

  /** Walking `path` down from `c`: nothing as soon as an index names no child. */
  function Descend(c: Cursor, path: seq<int>): Option<Cursor>
    decreases |path|
  {
    if path == [] then Some(c)
    else if Fits(c, path[0]) then Descend(Child(c, path[0]), path[1..])
    else None
  }

  /** What `resolveNodePath` computes on the document `doc`; `None` for the path stands
      for a stored value that is not an array. */
  function Resolve(doc: Node, path: Option<seq<int>>): Option<Cursor>
  {
    if path.None? then None else Descend(Top(doc), path.value)
  }

  /** `getNodePath(node)`: climbs from the node to the top of its tree, putting the node's
      index among its parent's children in front of the path at every step. The JavaScript
      loop stops at the document or at a node without a parent; in this model both are the
      node whose reference has no ancestors. */
  method GetNodePath(node: Cursor) returns (path: seq<int>)
    ensures path == NodePath(node)
  {
    path := [];
    var current := node;
    while current.up != []
      invariant NodePath(current) + path == NodePath(node)
      decreases |current.up|
    {
      var index := Index(current);
      path := [index] + path;
      current := Parent(current);
    }
  }

  /** `resolveNodePath(path)`: walks the path down from the document and gives up, without
      failing, as soon as an index has no corresponding child. */
  method ResolveNodePath(doc: Node, path: Option<seq<int>>) returns (r: Option<Cursor>)
    ensures r == Resolve(doc, path)
  {
    if path.None? {
      return None;
    }
    var p := path.value;
    var current := Top(doc);
    var k := 0;
    while k < |p|
      invariant 0 <= k <= |p|
      invariant Descend(current, p[k..]) == Resolve(doc, path)
    {
      var index := p[k];
      if !Fits(current, index) {
        return None;
      }
      current := Child(current, index);
      k := k + 1;
    }
    return Some(current);
  }

  /** Walking down from a node and then on from where that ended is one walk. */
  lemma {:induction false} DescendFromChild(c: Cursor, i: nat, path: seq<int>)
    requires Fits(c, i)
    ensures Descend(c, [i] + path) == Descend(Child(c, i), path)
  {
    assert ([i] + path)[1..] == path;
  }

  /** Whatever a walk reaches lies in the same tree, and its path is the walk appended to
      the starting node's path. */
  lemma {:induction false} DescendPath(c: Cursor, path: seq<int>)
    requires Descend(c, path).Some?
    ensures NodePath(Descend(c, path).value) == NodePath(c) + path
    ensures Root(Descend(c, path).value) == Root(c)
    decreases |path|
  {
    if path == [] {
      assert NodePath(c) + path == NodePath(c);
    } else {
      var i := path[0];
      var d := Child(c, i);
      ParentOfChild(c, i);
      assert NodePath(d) == NodePath(c) + [i];
      DescendPath(d, path[1..]);
      assert NodePath(c) + [i] + path[1..] == NodePath(c) + path;
    }
  }

  /** Walking the path of a node down from the node's root leads back to that node. */
  lemma {:induction false} DescendNodePath(c: Cursor)
    ensures Descend(Top(Root(c)), NodePath(c)) == Some(c)
    decreases |c.up|
  {
    if c.up != [] {
      var p := Parent(c);
      DescendNodePath(p);
      ChildOfParent(c);
      DescendAppend(Top(Root(p)), NodePath(p), Index(c));
      assert Descend(p, [Index(c)]) == Some(c) by {
        DescendFromChild(p, Index(c), []);
      }
    }
  }

  /** Extending a walk by one more index takes one more step from where it ended. */
  lemma {:induction false} DescendAppend(c: Cursor, path: seq<int>, i: int)
    ensures Descend(c, path + [i]) ==
      match Descend(c, path)
      case Some(d) => Descend(d, [i])
      case None => None
    decreases |path|
  {
    if path != [] {
      assert (path + [i])[0] == path[0] && (path + [i])[1..] == path[1..] + [i];
      if Fits(c, path[0]) {
        DescendAppend(Child(c, path[0]), path[1..], i);
      }
    }
  }

  /** For every node attached under the document, `resolveNodePath(getNodePath(node))` is
      that node, and the path has one index per level below the document. */
  lemma ResolveOfNodePath(c: Cursor)
    ensures Resolve(Root(c), Some(NodePath(c))) == Some(c)
    ensures |NodePath(c)| == |c.up|
  {
    DescendNodePath(c);
  }

  /** The other direction: whatever `resolveNodePath` finds has exactly the path it was
      given, so `getNodePath(resolveNodePath(p)) == p` for every path that resolves. */
  lemma NodePathOfResolve(doc: Node, path: seq<int>)
    requires Resolve(doc, Some(path)).Some?
    ensures NodePath(Resolve(doc, Some(path)).value) == path
    ensures Root(Resolve(doc, Some(path)).value) == doc
  {
    DescendPath(Top(doc), path);
  }

  /** Two references into the same document denote the same node exactly when their paths
      agree. */
  lemma SamePathSameNode(a: Cursor, b: Cursor)
    requires Root(a) == Root(b)
    ensures a == b <==> NodePath(a) == NodePath(b)
  {
    DescendNodePath(a);
    DescendNodePath(b);
  }

  /** `FindMark` stops at the first element carrying the id in tree order: the one at the
      first of the subtree's mark paths. */
  lemma {:induction false} FindMarkFirst(c: Cursor, id: string)
    ensures FindMark(c, id).None? <==> MarkPaths(c.focus, id) == []
    ensures FindMark(c, id).Some? ==> NodePath(FindMark(c, id).value) == NodePath(c) + MarkPaths(c.focus, id)[0]
    decreases c.focus, 1
  {
    if IsMark(c.focus, id) {
      assert MarkPaths(c.focus, id)[0] == [];
      assert NodePath(c) + [] == NodePath(c);
    } else if c.focus.Elem? {
      assert c.focus.kids[0..] == c.focus.kids;
      FindMarkBelowFirst(c, id, 0);
      assert MarkPaths(c.focus, id) == PathsFrom(c.focus, id, 0);
    }
  }

  lemma {:induction false} FindMarkBelowFirst(c: Cursor, id: string, i: nat)
    requires c.focus.Elem? && i <= |c.focus.kids|
    ensures FindMarkBelow(c, id, i).Some? ==>
      NodePath(FindMarkBelow(c, id, i).value) == NodePath(c) + PathsFrom(c.focus, id, i)[0]
    decreases c.focus, 0, |c.focus.kids| - i
  {
    if i < |c.focus.kids| {
      var d := Child(c, i);
      ParentOfChild(c, i);
      var first := MarkPaths(c.focus.kids[i], id);
      FindMarkFirst(d, id);
      if FindMark(d, id).Some? {
        assert NodePath(d) == NodePath(c) + [i];
        assert PathsFrom(c.focus, id, i)[0] == [i] + first[0];
      } else {
        assert PathsFrom(c.focus, id, i) == PathsFrom(c.focus, id, i + 1);
        FindMarkBelowFirst(c, id, i + 1);
      }
    }
  }

  /** `querySelector` returns the element carrying the id that comes first below the
      document in tree order, and nothing when there is none. */
  lemma QuerySelectorFirst(doc: Node, id: string)
    ensures QuerySelector(doc, id).None? <==> PathsBelow(doc, id) == []
    ensures QuerySelector(doc, id).Some? ==>
      var p := NodePath(QuerySelector(doc, id).value);
      && p == PathsBelow(doc, id)[0]
      && forall j :: 0 < j < |PathsBelow(doc, id)| ==> Precedes(p, PathsBelow(doc, id)[j])
  {
    if doc.Elem? {
      assert doc.kids[0..] == doc.kids;
      FindMarkBelowFirst(Top(doc), id, 0);
      PathsFromOrdered(doc, id, 0);
    }
  }

  /** Each of a node's mark paths leads from the node to an element carrying the id. */
  lemma {:induction false} MarkPathsLead(c: Cursor, id: string)
    ensures forall j :: 0 <= j < |MarkPaths(c.focus, id)| ==>
      Descend(c, MarkPaths(c.focus, id)[j]).Some? && IsMark(Descend(c, MarkPaths(c.focus, id)[j]).value.focus, id)
    decreases c.focus, 1
  {
    var ps := MarkPaths(c.focus, id);
    var below := if c.focus.Elem? then PathsFrom(c.focus, id, 0) else [];
    var self := if IsMark(c.focus, id) then 1 else 0;
    if c.focus.Elem? {
      assert c.focus.kids[0..] == c.focus.kids;
      PathsFromLead(c, id, 0);
    }
    forall j | 0 <= j < |ps|
      ensures Descend(c, ps[j]).Some? && IsMark(Descend(c, ps[j]).value.focus, id)
    {
      if j < self {
        assert ps[j] == [];
      } else {
        assert ps[j] == below[j - self];
      }
    }
  }

  lemma {:induction false} PathsFromLead(c: Cursor, id: string, i: nat)
    requires c.focus.Elem? && i <= |c.focus.kids|
    ensures forall j :: 0 <= j < |PathsFrom(c.focus, id, i)| ==>
      Descend(c, PathsFrom(c.focus, id, i)[j]).Some? && IsMark(Descend(c, PathsFrom(c.focus, id, i)[j]).value.focus, id)
    decreases c.focus, 0, |c.focus.kids| - i
  {
    if i < |c.focus.kids| {
      var first := MarkPaths(c.focus.kids[i], id);
      var rest := PathsFrom(c.focus, id, i + 1);
      var ps := PathsFrom(c.focus, id, i);
      MarkPathsLead(Child(c, i), id);
      PathsFromLead(c, id, i + 1);
      forall j | 0 <= j < |ps|
        ensures Descend(c, ps[j]).Some? && IsMark(Descend(c, ps[j]).value.focus, id)
      {
        if j < |first| {
          assert ps[j] == [i] + first[j];
          DescendFromChild(c, i, first[j]);
        } else {
          assert ps[j] == rest[j - |first|];
        }
      }
    }
  }

  /** Every path of a mark below the document resolves to an element carrying the id; with
      their number equal to the number of such elements and their strict tree order, they
      list all of those elements, each once. */
  lemma PathsBelowLead(doc: Node, id: string)
    ensures forall j :: 0 <= j < |PathsBelow(doc, id)| ==>
      Resolve(doc, Some(PathsBelow(doc, id)[j])).Some? && IsMark(Resolve(doc, Some(PathsBelow(doc, id)[j])).value.focus, id)
    ensures InTreeOrder(PathsBelow(doc, id))
  {
    if doc.Elem? {
      assert doc.kids[0..] == doc.kids;
      PathsFromLead(Top(doc), id, 0);
      PathsFromOrdered(doc, id, 0);
    }
  }

  /** `resolveNodePath` fails exactly when, along the way, some index has no corresponding
      child of the node reached so far. */
  lemma {:induction false} DescendFails(c: Cursor, path: seq<int>)
    ensures Descend(c, path).None? <==>
      exists k :: 0 <= k < |path| && Descend(c, path[..k]).Some? && !Fits(Descend(c, path[..k]).value, path[k])
    decreases |path|
  {
    if path != [] {
      assert Descend(c, path[..0]) == Some(c);
      if Fits(c, path[0]) {
        var d := Child(c, path[0]);
        var rest := path[1..];
        DescendFails(d, rest);
        forall k | 0 < k <= |path|
          ensures Descend(c, path[..k]) == Descend(d, rest[..k - 1])
        {
          assert path[..k][0] == path[0] && path[..k][1..] == rest[..k - 1];
        }
        if Descend(c, path).None? {
          var k' :| 0 <= k' < |rest| && Descend(d, rest[..k']).Some? && !Fits(Descend(d, rest[..k']).value, rest[k']);
          assert Descend(c, path[..k' + 1]) == Descend(d, rest[..k']);
        } else {
          forall k | 0 <= k < |path| && Descend(c, path[..k]).Some?
            ensures Fits(Descend(c, path[..k]).value, path[k])
          {
            if k > 0 {
              assert Descend(c, path[..k]) == Descend(d, rest[..k - 1]);
            }
          }
        }
      }
    }
  }

  /** `Math.abs(a - b)`. */
  function Dist(a: int, b: int): nat
  {
    if a < b then b - a else a - b
  }

  /** `clampOffset(node, offset)`: 0 without a node; otherwise the offset limited to
      `[0, length]`, where the length is the data length of a text node and the number of
      children of anything else. */
  function ClampOffset(node: Option<Node>, offset: int): (r: nat)
    ensures node.None? ==> r == 0
    ensures node.Some? ==> r <= NodeLength(node.value)
    ensures node.Some? && offset <= NodeLength(node.value) && 0 <= offset ==> r == offset
    ensures node.Some? ==> forall k: nat :: k <= NodeLength(node.value) ==> Dist(r, offset) <= Dist(k, offset)
  {
    if node.None? then 0
    else
      var max := NodeLength(node.value);
      if offset < 0 then 0 else if offset > max then max else offset
  }

  /** A node's path depends only on where it sits, not on what it holds. */
  lemma {:induction false} NodePathFocus(c: Cursor, m: Node)
    ensures NodePath(c.(focus := m)) == NodePath(c)
    decreases |c.up|
  {
    if c.up != [] {
      NodePathFocus(Parent(c), Plug(c.up[0], m));
      assert Parent(c.(focus := m)) == Parent(c).(focus := Plug(c.up[0], m));
    }
  }

  /** After replacing a node, its old path resolves to the replacement. */
  lemma ReplaceResolves(c: Cursor, m: Node)
    ensures Resolve(Replace(c, m), Some(NodePath(c))) == Some(c.(focus := m))
  {
    NodePathFocus(c, m);
    DescendNodePath(c.(focus := m));
  }
}
