/** The part of the DOM the highlighter relies on, as values: nodes, `textContent` and the
    DOM "length" of a node, node references that know their ancestors (so `parentNode` and
    a child's index among `childNodes` are available), `querySelector` by the
    `data-tenati-id` attribute, and `Node.normalize()` from section 4.4 of the WHATWG DOM
    Standard. */
module Dom {
  import opened Wrappers

  /** A text node, or an element with its tag name (upper case, as `tagName` reports it),
      its attributes and its child nodes. The document itself is an `Elem` whose tag is
      `DocumentTag`. */
  datatype Node = Text(data: string) | Elem(tag: string, attrs: map<string, string>, kids: seq<Node>)

  const DocumentTag := "#document"
  /** The attribute `mark.dataset.tenatiId` writes. */
  const IdAttr := "data-tenati-id"
  /** The attribute `mark.dataset.tenatiColor` writes. */
  const ColorAttr := "data-tenati-color"
  /** The attribute `mark.style.backgroundColor` writes: the element's inline style. */
  const StyleAttr := "style"
  /** The element and class name of a highlight. */
  const MarkTag := "MARK"
  const ClassAttr := "class"
  const MarkClass := "tenati-highlight"

  /** `node.textContent`: the concatenated data of all descendant text nodes. */
  function TextContent(n: Node): string
  {
    match n
    case Text(d) => d
    case Elem(_, _, kids) => TextOfAll(kids)
  }

  /** The text content of a sequence of sibling nodes (a node list or a fragment). */
  function TextOfAll(ns: seq<Node>): string
  {
    if ns == [] then "" else TextContent(ns[0]) + TextOfAll(ns[1..])
  }

  lemma {:induction false} TextOfAllAppend(a: seq<Node>, b: seq<Node>)
    ensures TextOfAll(a + b) == TextOfAll(a) + TextOfAll(b)
  {
    if a == [] {
      assert a + b == b;
    } else {
      assert (a + b)[1..] == a[1..] + b;
      TextOfAllAppend(a[1..], b);
    }
  }

  /** The DOM "length" of a node, which bounds the offsets of a boundary point inside it:
      the data length of a text node, the number of children of anything else. */
  function NodeLength(n: Node): nat
  {
    match n
    case Text(d) => |d|
    case Elem(_, _, kids) => |kids|
  }

  // ---------------------------------------------------------------------------------------
  // Node references.
  //
  // A live DOM node knows its parent and its position among its siblings. A `Cursor` is
  // that knowledge as a value: the node (`focus`) together with one `Frame` per ancestor,
  // innermost first, each holding the ancestor's tag and attributes and the siblings on
  // either side of the path. Two cursors into the same document are equal exactly when
  // they denote the same node.
  // ---------------------------------------------------------------------------------------

  datatype Frame = Frame(tag: string, attrs: map<string, string>, left: seq<Node>, right: seq<Node>)

  datatype Cursor = Cursor(focus: Node, up: seq<Frame>)

  /** The reference to the root of a tree. */
  function Top(n: Node): Cursor
  {
    Cursor(n, [])
  }

  /** The ancestor a frame describes, with `n` put back between the siblings. */
  function Plug(f: Frame, n: Node): Node
  {
    Elem(f.tag, f.attrs, f.left + [n] + f.right)
  }

  /** `node.parentNode`. */
  function Parent(c: Cursor): Cursor
    requires c.up != []
  {
    Cursor(Plug(c.up[0], c.focus), c.up[1..])
  }

  /** The position of a node among its parent's `childNodes`. */
  function Index(c: Cursor): nat
    requires c.up != []
  {
    |c.up[0].left|
  }

  /** `node.childNodes[i]`. */
  function Child(c: Cursor, i: nat): Cursor
    requires c.focus.Elem? && i < |c.focus.kids|
  {
    var kids := c.focus.kids;
    Cursor(kids[i], [Frame(c.focus.tag, c.focus.attrs, kids[..i], kids[i + 1..])] + c.up)
  }

  /** The root of the tree a node belongs to (the document, for an attached node). */
  function Root(c: Cursor): Node
    decreases |c.up|
  {
    if c.up == [] then c.focus else Root(Parent(c))
  }

  /** The tree with the node that `c` refers to replaced by `m`; everything else is kept. */
  function Replace(c: Cursor, m: Node): Node
  {
    Root(c.(focus := m))
  }

  lemma ChildOfParent(c: Cursor)
    requires c.up != []
    ensures Parent(c).focus.Elem? && Index(c) < |Parent(c).focus.kids|
    ensures Parent(c).focus.kids[Index(c)] == c.focus
    ensures Child(Parent(c), Index(c)) == c
  {
    var f := c.up[0];
    var kids := f.left + [c.focus] + f.right;
    assert kids[..|f.left|] == f.left;
    assert kids[|f.left| + 1..] == f.right;
    assert [f] + c.up[1..] == c.up;
  }

  lemma ParentOfChild(c: Cursor, i: nat)
    requires c.focus.Elem? && i < |c.focus.kids|
    ensures Child(c, i).up != [] && Parent(Child(c, i)) == c && Index(Child(c, i)) == i
    ensures Root(Child(c, i)) == Root(c)
  {
    var kids := c.focus.kids;
    assert kids[..i] + [kids[i]] + kids[i + 1..] == kids;
  }

  // ---------------------------------------------------------------------------------------
  // What a change at one node does to the whole tree.
  // ---------------------------------------------------------------------------------------

  /** The text of the whole tree that precedes the subtree at a node with ancestors `up`. */
  function TextBefore(up: seq<Frame>): string
  {
    if up == [] then "" else TextBefore(up[1..]) + TextOfAll(up[0].left)
  }

  /** The text of the whole tree that follows the subtree at a node with ancestors `up`. */
  function TextAfter(up: seq<Frame>): string
  {
    if up == [] then "" else TextOfAll(up[0].right) + TextAfter(up[1..])
  }

  /** The document's text is the text before a node, the node's own text and the text
      after it. */
  lemma {:induction false} RootText(c: Cursor)
    ensures TextContent(Root(c)) == TextBefore(c.up) + TextContent(c.focus) + TextAfter(c.up)
    decreases |c.up|
  {
    if c.up != [] {
      var f, p := c.up[0], Parent(c);
      RootText(p);
      PlugText(f, c.focus);
      Regroup(TextBefore(p.up), TextOfAll(f.left), TextContent(c.focus), TextOfAll(f.right), TextAfter(p.up));
    }
  }

  /** An ancestor's text is its children's text around the node. */
  lemma PlugText(f: Frame, n: Node)
    ensures TextContent(Plug(f, n)) == TextOfAll(f.left) + TextContent(n) + TextOfAll(f.right)
  {
    TextOfAllAppend(f.left + [n], f.right);
    TextOfAllAppend(f.left, [n]);
    assert TextOfAll([n]) == TextContent(n);
  }

  lemma Regroup(b: string, x: string, y: string, z: string, a: string)
    ensures b + (x + y + z) + a == (b + x) + y + (z + a)
  {
  }

  /** Replacing a node by one with the same text keeps the document's text. */
  lemma ReplaceKeepsText(c: Cursor, m: Node)
    requires TextContent(m) == TextContent(c.focus)
    ensures TextContent(Replace(c, m)) == TextContent(Root(c))
  {
    RootText(c);
    RootText(c.(focus := m));
  }

  /** The outermost ancestor (the document) keeps its tag and attributes when a node below
      it is replaced. */
  lemma {:induction false} ReplaceKeepsRoot(c: Cursor, m: Node)
    requires c.up != []
    ensures Replace(c, m).Elem? && Root(c).Elem?
    ensures Replace(c, m).tag == Root(c).tag && Replace(c, m).attrs == Root(c).attrs
    decreases |c.up|
  {
    var c' := c.(focus := m);
    if |c.up| > 1 {
      ReplaceKeepsRoot(Parent(c), Plug(c.up[0], m));
      assert Parent(c') == Parent(c).(focus := Plug(c.up[0], m));
    } else {
      assert Root(c') == Parent(c').focus && Root(c) == Parent(c).focus;
    }
  }

  // ---------------------------------------------------------------------------------------
  // Highlight marks and `querySelector('[data-tenati-id="..."]')`.
  // ---------------------------------------------------------------------------------------

  /** An element whose `data-tenati-id` attribute equals `id`. */
  predicate IsMark(n: Node, id: string)
  {
    n.Elem? && IdAttr in n.attrs && n.attrs[IdAttr] == id
  }

  /** The number of elements carrying `id` in the subtree of `n`, `n` included. */
  function MarkCount(n: Node, id: string): nat
    decreases n, 1
  {
    (if IsMark(n, id) then 1 else 0) + MarksBelow(n, id)
  }

  /** The number of elements carrying `id` strictly below `n`. */
  function MarksBelow(n: Node, id: string): nat
    decreases n, 0
  {
    match n
    case Text(_) => 0
    case Elem(_, _, kids) => MarkCountAll(kids, id)
  }

  function MarkCountAll(ns: seq<Node>, id: string): nat
  {
    if ns == [] then 0 else MarkCount(ns[0], id) + MarkCountAll(ns[1..], id)
  }

  lemma {:induction false} MarkCountAllAppend(a: seq<Node>, b: seq<Node>, id: string)
    ensures MarkCountAll(a + b, id) == MarkCountAll(a, id) + MarkCountAll(b, id)
  {
    if a == [] {
      assert a + b == b;
    } else {
      assert (a + b)[1..] == a[1..] + b;
      MarkCountAllAppend(a[1..], b, id);
    }
  }

  /** The number of elements carrying `id` outside the subtree at a node with ancestors
      `up`: in the ancestors themselves and in the siblings along the way. */
  function MarksAround(up: seq<Frame>, id: string): nat
  {
    if up == [] then 0
    else
      (if IdAttr in up[0].attrs && up[0].attrs[IdAttr] == id then 1 else 0)
      + MarkCountAll(up[0].left, id) + MarkCountAll(up[0].right, id) + MarksAround(up[1..], id)
  }

  lemma {:induction false} RootMarks(c: Cursor, id: string)
    ensures MarkCount(Root(c), id) == MarkCount(c.focus, id) + MarksAround(c.up, id)
    decreases |c.up|
  {
    if c.up != [] {
      var f := c.up[0];
      RootMarks(Parent(c), id);
      MarkCountAllAppend(f.left + [c.focus], f.right, id);
      MarkCountAllAppend(f.left, [c.focus], id);
      assert MarkCountAll([c.focus], id) == MarkCount(c.focus, id);
    }
  }

  /** Replacing a node below the document changes the number of elements carrying `id`
      below the document by exactly what it changes in the node's subtree. */
  lemma ReplaceMarks(c: Cursor, m: Node, id: string)
    requires c.up != []
    ensures MarksBelow(Replace(c, m), id) + MarkCount(c.focus, id) == MarksBelow(Root(c), id) + MarkCount(m, id)
  {
    RootMarks(c, id);
    RootMarks(c.(focus := m), id);
    ReplaceKeepsRoot(c, m);
  }

  /** Pre-order search of the subtree at `c`, `c` included, for an element carrying `id`. */
  function FindMark(c: Cursor, id: string): (r: Option<Cursor>)
    ensures r.Some? ==> IsMark(r.value.focus, id) && Root(r.value) == Root(c) && |r.value.up| >= |c.up|
    ensures r.None? <==> MarkCount(c.focus, id) == 0
    decreases c.focus, 1
  {
    if IsMark(c.focus, id) then Some(c)
    else if c.focus.Elem? then
      assert c.focus.kids[0..] == c.focus.kids;
      FindMarkBelow(c, id, 0)
    else None
  }

  /** Pre-order search of the children of `c` from the `i`-th on. */
  function FindMarkBelow(c: Cursor, id: string, i: nat): (r: Option<Cursor>)
    requires c.focus.Elem? && i <= |c.focus.kids|
    ensures r.Some? ==> IsMark(r.value.focus, id) && Root(r.value) == Root(c) && |r.value.up| > |c.up|
    ensures r.None? <==> MarkCountAll(c.focus.kids[i..], id) == 0
    decreases c.focus, 0, |c.focus.kids| - i
  {
    var kids := c.focus.kids;
    if i == |kids| then None
    else
      assert kids[i..][1..] == kids[i + 1..];
      ParentOfChild(c, i);
      match FindMark(Child(c, i), id)
      case Some(m) => Some(m)
      case None => FindMarkBelow(c, id, i + 1)
  }

  /** `document.querySelector('[data-tenati-id="id"]')`: the first element below the
      document, in tree order, that carries `id`. */
  function QuerySelector(doc: Node, id: string): (r: Option<Cursor>)
    ensures r.Some? ==> IsMark(r.value.focus, id) && Root(r.value) == doc && r.value.up != []
    ensures r.None? <==> MarksBelow(doc, id) == 0
  {
    if doc.Elem? then
      assert doc.kids[0..] == doc.kids;
      FindMarkBelow(Top(doc), id, 0)
    else None
  }

  /** Tree order on child-index paths from one node: a node comes before its descendants,
      and the subtree of a child before that of every later sibling. */
  predicate Precedes(p: seq<nat>, q: seq<nat>)
    decreases |p|
  {
    if p == [] then q != []
    else q != [] && (p[0] < q[0] || (p[0] == q[0] && Precedes(p[1..], q[1..])))
  }

  /** Strictly increasing in tree order. */
  predicate InTreeOrder(ps: seq<seq<nat>>)
  {
    forall i, j :: 0 <= i < j < |ps| ==> Precedes(ps[i], ps[j])
  }

  /** Every path with the child index `i` in front. */
  function Under(i: nat, ps: seq<seq<nat>>): (r: seq<seq<nat>>)
    ensures |r| == |ps| && forall j :: 0 <= j < |ps| ==> r[j] == [i] + ps[j]
  {
    seq(|ps|, j requires 0 <= j < |ps| => [i] + ps[j])
  }

  /** The paths, relative to `n`, of the elements carrying `id` in the subtree of `n`, one
      per element: `n` itself first when it carries the id, then those below its children
      in turn. */
  function MarkPaths(n: Node, id: string): (ps: seq<seq<nat>>)
    ensures |ps| == MarkCount(n, id)
    decreases n, 1
  {
    assert n.Elem? ==> n.kids[0..] == n.kids;
    (if IsMark(n, id) then [[]] else []) + (if n.Elem? then PathsFrom(n, id, 0) else [])
  }

  /** The paths of the elements carrying `id` below the children of `n` from the `i`-th
      on, each starting with the child's index. */
  function PathsFrom(n: Node, id: string, i: nat): (ps: seq<seq<nat>>)
    requires n.Elem? && i <= |n.kids|
    ensures |ps| == MarkCountAll(n.kids[i..], id)
    ensures forall j :: 0 <= j < |ps| ==> ps[j] != [] && i <= ps[j][0] < |n.kids|
    decreases n, 0, |n.kids| - i
  {
    if i == |n.kids| then []
    else
      assert n.kids[i..][1..] == n.kids[i + 1..];
      Under(i, MarkPaths(n.kids[i], id)) + PathsFrom(n, id, i + 1)
  }

  /** The paths of the elements carrying `id` strictly below `doc`. */
  function PathsBelow(doc: Node, id: string): (ps: seq<seq<nat>>)
    ensures |ps| == MarksBelow(doc, id)
  {
    assert doc.Elem? ==> doc.kids[0..] == doc.kids;
    if doc.Elem? then PathsFrom(doc, id, 0) else []
  }

  /** The paths of a node's marks are listed in tree order, hence each once. */
  lemma {:induction false} MarkPathsOrdered(n: Node, id: string)
    ensures InTreeOrder(MarkPaths(n, id))
    decreases n, 1
  {
    var below := if n.Elem? then PathsFrom(n, id, 0) else [];
    if n.Elem? {
      PathsFromOrdered(n, id, 0);
    }
    if IsMark(n, id) {
      var ps := [[]] + below;
      forall i, j | 0 <= i < j < |ps|
        ensures Precedes(ps[i], ps[j])
      {
        if i > 0 {
          assert ps[i] == below[i - 1] && ps[j] == below[j - 1];
        }
      }
    } else {
      assert MarkPaths(n, id) == below;
    }
  }

  lemma {:induction false} PathsFromOrdered(n: Node, id: string, i: nat)
    requires n.Elem? && i <= |n.kids|
    ensures InTreeOrder(PathsFrom(n, id, i))
    decreases n, 0, |n.kids| - i
  {
    if i < |n.kids| {
      var first := MarkPaths(n.kids[i], id);
      var rest := PathsFrom(n, id, i + 1);
      MarkPathsOrdered(n.kids[i], id);
      PathsFromOrdered(n, id, i + 1);
      UnderOrdered(i, first);
      OrderedConcat(Under(i, first), rest, i);
    }
  }

  /** Putting the same index in front keeps tree order. */
  lemma UnderOrdered(i: nat, ps: seq<seq<nat>>)
    requires InTreeOrder(ps)
    ensures InTreeOrder(Under(i, ps))
  {
    var r := Under(i, ps);
    forall a, b | 0 <= a < b < |r|
      ensures Precedes(r[a], r[b])
    {
      assert r[a][1..] == ps[a] && r[b][1..] == ps[b];
    }
  }

  /** The paths under child `i` come before the paths under later children. */
  lemma OrderedConcat(xs: seq<seq<nat>>, ys: seq<seq<nat>>, i: nat)
    requires InTreeOrder(xs) && InTreeOrder(ys)
    requires forall a :: 0 <= a < |xs| ==> xs[a] != [] && xs[a][0] == i
    requires forall b :: 0 <= b < |ys| ==> ys[b] != [] && i < ys[b][0]
    ensures InTreeOrder(xs + ys)
  {
    var zs := xs + ys;
    forall a, b | 0 <= a < b < |zs|
      ensures Precedes(zs[a], zs[b])
    {
      if b < |xs| {
        assert zs[a] == xs[a] && zs[b] == xs[b];
      } else if a >= |xs| {
        assert zs[a] == ys[a - |xs|] && zs[b] == ys[b - |xs|];
      } else {
        assert zs[a] == xs[a] && zs[b] == ys[b - |xs|];
      }
    }
  }

  // ---------------------------------------------------------------------------------------
  // Node.normalize()
  // ---------------------------------------------------------------------------------------

  /** No empty text node and no two adjacent text nodes among siblings. */
  predicate TextsMerged(ns: seq<Node>)
  {
    && (forall i :: 0 <= i < |ns| && ns[i].Text? ==> ns[i].data != "")
    && (forall i :: 0 <= i < |ns| - 1 ==> !(ns[i].Text? && ns[i + 1].Text?))
  }

  /** A subtree in which every element's children have their text merged. */
  predicate IsNormal(n: Node)
  {
    match n
    case Text(_) => true
    case Elem(_, _, kids) => TextsMerged(kids) && forall i :: 0 <= i < |kids| ==> IsNormal(kids[i])
  }

  /** The sibling-level step of `normalize()`: every maximal run of adjacent text nodes
      becomes one text node holding their concatenated data, and is dropped altogether
      when that data is empty. Elements are kept, in order. */
  function MergeTexts(ns: seq<Node>): (r: seq<Node>)
    ensures TextOfAll(r) == TextOfAll(ns)
    ensures |r| <= |ns|
    ensures r != [] && r[0].Text? ==> ns != [] && ns[0].Text?
  {
    if ns == [] then []
    else
      var rest := MergeTexts(ns[1..]);
      match ns[0]
      case Elem(_, _, _) => [ns[0]] + rest
      case Text(d) =>
        if rest != [] && rest[0].Text? then
          assert TextOfAll(rest) == rest[0].data + TextOfAll(rest[1..]);
          [Text(d + rest[0].data)] + rest[1..]
        else if d == "" then rest
        else [Text(d)] + rest
  }

  /** After merging, no text node is empty and no two are adjacent. */
  lemma {:induction false} MergeTextsMerged(ns: seq<Node>)
    ensures TextsMerged(MergeTexts(ns))
  {
    if ns != [] {
      var rest := MergeTexts(ns[1..]);
      MergeTextsMerged(ns[1..]);
      match ns[0]
      case Elem(_, _, _) =>
        ConsMerged(ns[0], rest);
      case Text(d) =>
        if rest != [] && rest[0].Text? {
          TailMerged(rest);
          ConsMerged(Text(d + rest[0].data), rest[1..]);
        } else if d != "" {
          ConsMerged(Text(d), rest);
        }
    }
  }

  lemma ConsMerged(n: Node, ns: seq<Node>)
    requires TextsMerged(ns)
    requires n.Text? ==> n.data != "" && (ns != [] ==> !ns[0].Text?)
    ensures TextsMerged([n] + ns)
  {
    var r := [n] + ns;
    forall i | 0 <= i < |r| - 1
      ensures !(r[i].Text? && r[i + 1].Text?)
    {
      if i > 0 {
        assert r[i] == ns[i - 1] && r[i + 1] == ns[i];
      }
    }
    forall i | 0 <= i < |r| && r[i].Text?
      ensures r[i].data != ""
    {
      if i > 0 {
        assert r[i] == ns[i - 1];
      }
    }
  }

  lemma TailMerged(ns: seq<Node>)
    requires TextsMerged(ns) && ns != [] && ns[0].Text?
    ensures TextsMerged(ns[1..]) && ns[0].data != ""
    ensures ns[1..] != [] ==> !ns[1..][0].Text?
  {
    var t := ns[1..];
    forall i | 0 <= i < |t| - 1
      ensures !(t[i].Text? && t[i + 1].Text?)
    {
      assert t[i] == ns[i + 1] && t[i + 1] == ns[i + 2];
    }
    if t != [] {
      assert t[0] == ns[1];
    }
  }

  /** Merging keeps every subtree that was normal normal. */
  lemma {:induction false} MergeKeepsNormal(ns: seq<Node>)
    requires forall i :: 0 <= i < |ns| ==> IsNormal(ns[i])
    ensures forall i :: 0 <= i < |MergeTexts(ns)| ==> IsNormal(MergeTexts(ns)[i])
  {
    if ns != [] {
      var rest := MergeTexts(ns[1..]);
      assert forall i :: 0 <= i < |ns[1..]| ==> IsNormal(ns[1..][i]);
      MergeKeepsNormal(ns[1..]);
      var r := MergeTexts(ns);
      match ns[0]
      case Elem(_, _, _) =>
        assert r == [ns[0]] + rest;
        assert forall i :: 0 < i < |r| ==> r[i] == rest[i - 1];
      case Text(d) =>
        if rest != [] && rest[0].Text? {
          assert r == [Text(d + rest[0].data)] + rest[1..];
          assert forall i :: 0 < i < |r| ==> r[i] == rest[i];
        } else if d == "" {
          assert r == rest;
        } else {
          assert r == [Text(d)] + rest;
          assert forall i :: 0 < i < |r| ==> r[i] == rest[i - 1];
        }
    }
  }

  /** `node.normalize()`: text runs are merged at every level of the subtree. */
  function Normalize(n: Node): (r: Node)
    ensures TextContent(r) == TextContent(n)
    ensures IsNormal(r)
    ensures r.Elem? <==> n.Elem?
    ensures r.Elem? ==> r.tag == n.tag && r.attrs == n.attrs
  {
    match n
    case Text(_) => n
    case Elem(tag, attrs, kids) =>
      var nk := NormalizeAll(kids);
      MergeTextsMerged(nk);
      MergeKeepsNormal(nk);
      Elem(tag, attrs, MergeTexts(nk))
  }

  function NormalizeAll(ns: seq<Node>): (r: seq<Node>)
    ensures |r| == |ns| && TextOfAll(r) == TextOfAll(ns)
    ensures forall i :: 0 <= i < |r| ==> IsNormal(r[i]) && (r[i].Text? <==> ns[i].Text?)
  {
    if ns == [] then [] else [Normalize(ns[0])] + NormalizeAll(ns[1..])
  }

  /** Merging text runs keeps every element. */
  lemma {:induction false} MergeTextsMarks(ns: seq<Node>, id: string)
    ensures MarkCountAll(MergeTexts(ns), id) == MarkCountAll(ns, id)
  {
    if ns != [] {
      MergeTextsMarks(ns[1..], id);
      var rest := MergeTexts(ns[1..]);
      match ns[0]
      case Elem(_, _, _) =>
        assert ([ns[0]] + rest)[1..] == rest;
      case Text(d) =>
        assert MarkCount(ns[0], id) == 0;
        if rest != [] && rest[0].Text? {
          assert MarkCount(rest[0], id) == 0;
          var merged := [Text(d + rest[0].data)] + rest[1..];
          assert merged[1..] == rest[1..];
          assert MarkCount(merged[0], id) == 0;
        } else if d != "" {
          assert ([Text(d)] + rest)[1..] == rest;
        }
    }
  }

  /** `normalize()` keeps every element and its attributes, so it keeps every mark. */
  lemma {:induction false} NormalizeMarks(n: Node, id: string)
    ensures MarkCount(Normalize(n), id) == MarkCount(n, id)
    decreases n, 1
  {
    if n.Elem? {
      NormalizeAllMarks(n.kids, id);
      MergeTextsMarks(NormalizeAll(n.kids), id);
    }
  }

  lemma {:induction false} NormalizeAllMarks(ns: seq<Node>, id: string)
    ensures MarkCountAll(NormalizeAll(ns), id) == MarkCountAll(ns, id)
    decreases ns, 0
  {
    if ns != [] {
      NormalizeMarks(ns[0], id);
      NormalizeAllMarks(ns[1..], id);
      assert NormalizeAll(ns)[1..] == NormalizeAll(ns[1..]);
    }
  }
}
