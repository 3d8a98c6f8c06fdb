/** Wrapping a range of the document in a `<mark>` and taking it out again
    (`wrapRangeWithMark`, `removeMarkFromDom`, `applyColorToMark`). Wrapping follows the
    Range interface of section 5.5 of the WHATWG DOM Standard: `extractContents` moves the
    selected content into a fragment, splitting the text nodes the range cuts through, and
    `insertNode` puts the new mark where the content was. Only ranges whose two ends lie in
    one parent's children are wrapped here: both ends in one text node, both between the
    children of one element, in two text children of one element, or in a text child and
    between the children of that child's parent. */
module MarkWrapper {
  import opened Wrappers
  import opened TextUtil
  import opened Dom
  import opened PathCodec

  /** A DOM Range: a start and an end boundary point, each a node and an offset into it. */
  datatype Range = Range(startContainer: Cursor, startOffset: nat, endContainer: Cursor, endOffset: nat)

  /** The node at path `pa` comes after the node at path `pb` in tree order. */
  predicate Follows(pa: seq<int>, pb: seq<int>)
    decreases |pa|
  {
    if pa == [] then false
    else if pb == [] then true
    else if pa[0] != pb[0] then pa[0] > pb[0]
    else Follows(pa[1..], pb[1..])
  }

  /** The boundary point (node at `pa`, `oa`) is after (node at `pb`, `ob`): the "position
      of a boundary point" of section 5.2 of the WHATWG DOM Standard, on paths. */
  predicate BoundaryAfter(pa: seq<int>, oa: int, pb: seq<int>, ob: int)
  {
    if pa == pb then oa > ob
    else if |pa| < |pb| && pa == pb[..|pa|] then pb[|pa|] < oa
    else if |pb| < |pa| && pb == pa[..|pb|] then ob <= pa[|pb|]
    else Follows(pa, pb)
  }

  /** A range as the DOM keeps it: both boundary points in the document `doc`, offsets
      within the length of their node, and the start not after the end. */
  predicate ValidRange(doc: Node, r: Range)
  {
    && Root(r.startContainer) == doc && Root(r.endContainer) == doc
    && r.startOffset <= NodeLength(r.startContainer.focus)
    && r.endOffset <= NodeLength(r.endContainer.focus)
    && !BoundaryAfter(NodePath(r.startContainer), r.startOffset, NodePath(r.endContainer), r.endOffset)
  }

  /** `range.collapsed`. */
  predicate Collapsed(r: Range)
  {
    r.startContainer == r.endContainer && r.startOffset == r.endOffset
  }

  // ---------------------------------------------------------------------------------------
  // Ranges inside one parent.
  // ---------------------------------------------------------------------------------------

  /** A boundary point seen from the parent the range lies in: between its children (before
      child `k`), or at offset `o` of its text child `i`. */
  datatype Edge = Between(k: nat) | InText(i: nat, o: nat)

  /** A range inside the children of the element `parent`. */
  datatype Shape = Shape(parent: Cursor, start: Edge, end: Edge)

  predicate EdgeFits(kids: seq<Node>, e: Edge)
  {
    match e
    case Between(k) => k <= |kids|
    case InText(i, o) => i < |kids| && kids[i].Text? && o <= |kids[i].data|
  }

  /** The start edge is not after the end edge. */
  predicate Ordered(start: Edge, end: Edge)
  {
    match (start, end)
    case (InText(i, s), InText(j, e)) => i < j || (i == j && s <= e)
    case (InText(i, _), Between(k)) => i < k
    case (Between(k), InText(j, _)) => k <= j
    case (Between(k), Between(l)) => k <= l
  }

  /** A shape this model wraps: inside an element that is not the document itself. */
  predicate WellFormed(sh: Shape)
  {
    && sh.parent.focus.Elem? && sh.parent.up != []
    && EdgeFits(sh.parent.focus.kids, sh.start) && EdgeFits(sh.parent.focus.kids, sh.end)
    && Ordered(sh.start, sh.end)
  }

  /** The range seen from the parent both of its ends lie in, when there is such a parent
      and it is not the document; `None` for every other range. */
  function Classify(r: Range): (sh: Option<Shape>)
    ensures sh.Some? ==> WellFormed(sh.value)
  {
    var s, e := r.startContainer, r.endContainer;
    var so, eo := r.startOffset, r.endOffset;
    var candidate :=
      if s == e then
        if s.focus.Text? then
          if s.up == [] then None else Some(Shape(Parent(s), InText(Index(s), so), InText(Index(s), eo)))
        else Some(Shape(s, Between(so), Between(eo)))
      else if s.focus.Text? && e.focus.Text? && s.up != [] && e.up != [] && Parent(s) == Parent(e) then
        Some(Shape(Parent(s), InText(Index(s), so), InText(Index(e), eo)))
      else if s.focus.Text? && s.up != [] && Parent(s) == e then
        Some(Shape(e, InText(Index(s), so), Between(eo)))
      else if e.focus.Text? && e.up != [] && Parent(e) == s then
        Some(Shape(s, Between(so), InText(Index(e), eo)))
      else None;
    if candidate.Some? && WellFormed(candidate.value) then candidate else None
  }

  /** Where a boundary point falls in the text of the parent's children. */
  function CharPos(kids: seq<Node>, e: Edge): nat
    requires EdgeFits(kids, e)
  {
    match e
    case Between(k) => |TextOfAll(kids[..k])|
    case InText(i, o) => |TextOfAll(kids[..i])| + o
  }

  /** One more child when the edge lies inside a text node. */
  function Extra(e: Edge): nat
  {
    if e.InText? then 1 else 0
  }

  /** The child index an edge becomes once the text node it lies in is cut. */
  function Gap(e: Edge): nat
  {
    match e
    case Between(k) => k
    case InText(i, _) => i + 1
  }

  /** The children with the text node an edge lies in split in two at the edge's offset,
      as `Text.splitText` does; unchanged for an edge between children. */
  function Cut(kids: seq<Node>, e: Edge): (r: seq<Node>)
    requires EdgeFits(kids, e)
    ensures |r| == |kids| + Extra(e) && Gap(e) <= |r|
  {
    match e
    case Between(_) => kids
    case InText(i, o) => kids[..i] + [Text(kids[i].data[..o]), Text(kids[i].data[o..])] + kids[i + 1..]
  }

  lemma TextOfAllSplit(kids: seq<Node>, k: nat)
    requires k <= |kids|
    ensures TextOfAll(kids) == TextOfAll(kids[..k]) + TextOfAll(kids[k..])
  {
    assert kids[..k] + kids[k..] == kids;
    TextOfAllAppend(kids[..k], kids[k..]);
  }

  lemma TextOfAllRange(kids: seq<Node>, k: nat, l: nat)
    requires k <= l <= |kids|
    ensures TextOfAll(kids[..l]) == TextOfAll(kids[..k]) + TextOfAll(kids[k..l])
  {
    assert kids[..l][..k] == kids[..k] && kids[..l][k..] == kids[k..l];
    TextOfAllSplit(kids[..l], k);
  }

  /** Cutting a text node keeps the text, and the cut falls at the edge's character position. */
  lemma CutText(kids: seq<Node>, e: Edge)
    requires EdgeFits(kids, e)
    ensures TextOfAll(Cut(kids, e)) == TextOfAll(kids)
    ensures |TextOfAll(Cut(kids, e)[..Gap(e)])| == CharPos(kids, e)
  {
    if e.InText? {
      var i, o := e.i, e.o;
      var d := kids[i].data;
      var a, b := Text(d[..o]), Text(d[o..]);
      var c := Cut(kids, e);
      assert kids == (kids[..i] + [kids[i]]) + kids[i + 1..];
      assert c == (kids[..i] + [a]) + ([b] + kids[i + 1..]);
      assert c[..i + 1] == kids[..i] + [a];
      TextOfAllAppend(kids[..i] + [kids[i]], kids[i + 1..]);
      TextOfAllAppend(kids[..i], [kids[i]]);
      TextOfAllAppend(kids[..i] + [a], [b] + kids[i + 1..]);
      TextOfAllAppend(kids[..i], [a]);
      TextOfAllAppend([b], kids[i + 1..]);
      assert TextOfAll([kids[i]]) == d && TextOfAll([a]) == d[..o] && TextOfAll([b]) == d[o..];
      assert d == d[..o] + d[o..];
    }
  }

  /** Cutting a text node adds no element and removes none. */
  lemma CutMarks(kids: seq<Node>, e: Edge, id: string)
    requires EdgeFits(kids, e)
    ensures MarkCountAll(Cut(kids, e), id) == MarkCountAll(kids, id)
  {
    if e.InText? {
      var i, o := e.i, e.o;
      var a, b := Text(kids[i].data[..o]), Text(kids[i].data[o..]);
      assert kids == (kids[..i] + [kids[i]]) + kids[i + 1..];
      assert Cut(kids, e) == (kids[..i] + [a, b]) + kids[i + 1..];
      MarkCountAllAppend(kids[..i] + [kids[i]], kids[i + 1..], id);
      MarkCountAllAppend(kids[..i], [kids[i]], id);
      MarkCountAllAppend(kids[..i] + [a, b], kids[i + 1..], id);
      MarkCountAllAppend(kids[..i], [a, b], id);
      assert [a, b][1..] == [b];
      assert MarkCount(kids[i], id) == 0 && MarkCount(a, id) == 0 && MarkCount(b, id) == 0;
      assert MarkCountAll([kids[i]], id) == 0 && MarkCountAll([b], id) == 0;
    }
  }

  /** Cutting before position `n` and then keeping the first `n` children (plus the new one)
      is cutting the first `n` children. */
  lemma CutPrefix(kids: seq<Node>, e: Edge, n: nat)
    requires EdgeFits(kids, e) && Gap(e) <= n <= |kids|
    ensures EdgeFits(kids[..n], e)
    ensures Cut(kids, e)[..n + Extra(e)] == Cut(kids[..n], e)
  {
    if e.InText? {
      var i := e.i;
      assert kids[..n][..i] == kids[..i] && kids[..n][i] == kids[i] && kids[..n][i + 1..] == kids[i + 1..n];
    }
  }

  /** Cutting at the end of a range leaves its start where it was. */
  lemma CutKeepsStart(kids: seq<Node>, start: Edge, end: Edge)
    requires EdgeFits(kids, start) && EdgeFits(kids, end) && Ordered(start, end)
    ensures EdgeFits(Cut(kids, end), start)
    ensures CharPos(Cut(kids, end), start) == CharPos(kids, start)
  {
    var c := Cut(kids, end);
    if end.InText? {
      var j := end.i;
      match start
      case Between(k) =>
        assert c[..k] == kids[..k];
      case InText(i, s) =>
        assert c[..i] == kids[..i];
        assert c[i].data == (if i == j then kids[i].data[..end.o] else kids[i].data);
    }
  }

  /** The three parts `extractContents` followed by `insertNode` makes of the parent's
      children: those before the mark, the fragment that becomes the mark's children, and
      those after the mark. */
  datatype Pieces = Pieces(pre: seq<Node>, frag: seq<Node>, post: seq<Node>)

  /** `extractContents` splits the text node the end lies in at the end offset and the text
      node the start lies in at the start offset (when both ends lie in one text node,
      `insertNode` makes the second split on what is left of it), and the fragment is the
      children between the two cuts. */
  function Split(kids: seq<Node>, start: Edge, end: Edge): Pieces
    requires EdgeFits(kids, start) && EdgeFits(kids, end) && Ordered(start, end)
  {
    CutKeepsStart(kids, start, end);
    var cut := Cut(Cut(kids, end), start);
    var a, b := Gap(start), Gap(end) + Extra(start);
    Pieces(cut[..a], cut[a..b], cut[b..])
  }

  /** The cut points of `Split` are in order and inside the twice-cut children. */
  lemma SplitBounds(kids: seq<Node>, start: Edge, end: Edge)
    requires EdgeFits(kids, start) && EdgeFits(kids, end) && Ordered(start, end)
    ensures EdgeFits(Cut(kids, end), start)
    ensures var k2 := Cut(Cut(kids, end), start);
      && Gap(start) <= Gap(end) <= |Cut(kids, end)|
      && Gap(start) <= Gap(end) + Extra(start) <= |k2|
      && Split(kids, start, end) == Pieces(k2[..Gap(start)], k2[Gap(start)..Gap(end) + Extra(start)], k2[Gap(end) + Extra(start)..])
  {
    CutKeepsStart(kids, start, end);
  }

  /** The three parts hold the parent's text in order, cut at the two boundary points. */
  lemma SplitLengths(kids: seq<Node>, start: Edge, end: Edge)
    requires EdgeFits(kids, start) && EdgeFits(kids, end) && Ordered(start, end)
    ensures var p := Split(kids, start, end);
      && TextOfAll(p.pre) + TextOfAll(p.frag) + TextOfAll(p.post) == TextOfAll(kids)
      && |TextOfAll(p.pre)| == CharPos(kids, start)
      && |TextOfAll(p.pre)| + |TextOfAll(p.frag)| == CharPos(kids, end)
  {
    SplitBounds(kids, start, end);
    var k1 := Cut(kids, end);
    var k2 := Cut(k1, start);
    var a, b := Gap(start), Gap(end) + Extra(start);
    CutText(kids, end);
    CutText(k1, start);
    CutKeepsStart(kids, start, end);
    assert |TextOfAll(k2[..a])| == CharPos(kids, start);
    CutPrefix(k1, start, Gap(end));
    CutText(k1[..Gap(end)], start);
    assert |TextOfAll(k2[..b])| == CharPos(kids, end);
    TextOfAllRange(k2, a, b);
    TextOfAllSplit(k2, b);
    assert TextOfAll(k2) == TextOfAll(kids);
  }

  lemma Substrings(t: string, x: string, y: string, z: string)
    requires x + y + z == t
    ensures t[..|x|] == x && t[|x|..|x| + |y|] == y && t[|x| + |y|..] == z
  {
  }

  /** Splitting keeps every character in place: the text before the mark is the parent's
      text up to the start, the fragment's text is the text between the two boundary
      points, and the text after the mark is the parent's text from the end on. */
  lemma SplitText(kids: seq<Node>, start: Edge, end: Edge)
    requires EdgeFits(kids, start) && EdgeFits(kids, end) && Ordered(start, end)
    ensures var p := Split(kids, start, end);
      var t := TextOfAll(kids);
      && CharPos(kids, start) <= CharPos(kids, end) <= |t|
      && TextOfAll(p.pre) == t[..CharPos(kids, start)]
      && TextOfAll(p.frag) == t[CharPos(kids, start)..CharPos(kids, end)]
      && TextOfAll(p.post) == t[CharPos(kids, end)..]
  {
    var p := Split(kids, start, end);
    SplitLengths(kids, start, end);
    Substrings(TextOfAll(kids), TextOfAll(p.pre), TextOfAll(p.frag), TextOfAll(p.post));
  }

  /** Splitting text nodes neither adds elements nor removes any. */
  lemma SplitMarks(kids: seq<Node>, start: Edge, end: Edge, id: string)
    requires EdgeFits(kids, start) && EdgeFits(kids, end) && Ordered(start, end)
    ensures var p := Split(kids, start, end);
      MarkCountAll(p.pre, id) + MarkCountAll(p.frag, id) + MarkCountAll(p.post, id) == MarkCountAll(kids, id)
  {
    SplitBounds(kids, start, end);
    var k1 := Cut(kids, end);
    var k2 := Cut(k1, start);
    var a, b := Gap(start), Gap(end) + Extra(start);
    CutMarks(kids, end, id);
    CutMarks(k1, start, id);
    MarksInThree(k2, a, b, id);
  }

  lemma MarksInThree(ns: seq<Node>, a: nat, b: nat, id: string)
    requires a <= b <= |ns|
    ensures MarkCountAll(ns[..a], id) + MarkCountAll(ns[a..b], id) + MarkCountAll(ns[b..], id) == MarkCountAll(ns, id)
  {
    var x, y, z := ns[..a], ns[a..b], ns[b..];
    assert ns == (x + y) + z;
    MarkCountAllAppend(x + y, z, id);
    MarkCountAllAppend(x, y, id);
  }

  /** `range.toString()` for a range inside one parent: the characters of the parent's text
      between the two boundary points. */
  function RangeText(sh: Shape): string
    requires WellFormed(sh)
  {
    var kids := sh.parent.focus.kids;
    SplitText(kids, sh.start, sh.end);
    TextOfAll(kids)[CharPos(kids, sh.start)..CharPos(kids, sh.end)]
  }

  // ---------------------------------------------------------------------------------------
  // Wrapping.
  // ---------------------------------------------------------------------------------------

  /** The inline style `mark.style.backgroundColor = color` leaves on a mark, which
      carries no other declaration. */
  function BackgroundStyle(color: string): string
  {
    "background-color: " + color + ";"
  }

  /** `applyColorToMark(mark, color)`: sets the background color in the inline style and
      records the color in `data-tenati-color`; nothing else about the element changes. */
  function ApplyColorToMark(mark: Node, color: string): (r: Node)
    requires mark.Elem?
    ensures r.Elem? && r.tag == mark.tag && r.kids == mark.kids
    ensures ColorAttr in r.attrs && r.attrs[ColorAttr] == color
    ensures StyleAttr in r.attrs && r.attrs[StyleAttr] == BackgroundStyle(color)
    ensures forall a :: a in mark.attrs && a != ColorAttr && a != StyleAttr ==> a in r.attrs && r.attrs[a] == mark.attrs[a]
    ensures forall a :: a in r.attrs && a != ColorAttr && a != StyleAttr ==> a in mark.attrs
    ensures forall x :: IsMark(r, x) <==> IsMark(mark, x)
  {
    mark.(attrs := mark.attrs[StyleAttr := BackgroundStyle(color)][ColorAttr := color])
  }

  /** The element `wrapRangeWithMark` creates around the fragment `frag`. */
  function NewMark(color: string, id: string, frag: seq<Node>): Node
  {
    ApplyColorToMark(Elem(MarkTag, map[ClassAttr := MarkClass, IdAttr := id], frag), color)
  }

  /** The parent once the fragment has been taken out and the mark put in its place. */
  function Wrapped(sh: Shape, color: string, id: string): Node
    requires WellFormed(sh)
  {
    var p := sh.parent.focus;
    var pieces := Split(p.kids, sh.start, sh.end);
    Elem(p.tag, p.attrs, pieces.pre + [NewMark(color, id, pieces.frag)] + pieces.post)
  }

  /** `wrapRangeWithMark(range, color, id)`: nothing when the range's text is empty or
      whitespace only (and for a range this model does not wrap); otherwise a reference to
      the new mark in the updated document, which is `Root` of the result. */
  function Wrap(r: Range, color: string, id: string): Option<Cursor>
  {
    match Classify(r)
    case None => None
    case Some(sh) =>
      if IsBlank(RangeText(sh)) then None
      else
        var at := |Split(sh.parent.focus.kids, sh.start, sh.end).pre|;
        Some(Child(sh.parent.(focus := Wrapped(sh, color, id)), at))
  }

  lemma TextAround(pre: seq<Node>, n: Node, post: seq<Node>)
    ensures (pre + [n] + post)[|pre|] == n
    ensures TextOfAll(pre + [n] + post) == TextOfAll(pre) + TextContent(n) + TextOfAll(post)
  {
    TextOfAllAppend(pre + [n], post);
    TextOfAllAppend(pre, [n]);
    assert TextOfAll([n]) == TextContent(n);
  }

  /** The parent after wrapping: the mark sits among its children, holds exactly the
      range's text, and carries the id and the color; the parent's text is unchanged. */
  lemma WrappedText(sh: Shape, color: string, id: string)
    requires WellFormed(sh)
    ensures var w := Wrapped(sh, color, id);
      var at := |Split(sh.parent.focus.kids, sh.start, sh.end).pre|;
      && at < |w.kids|
      && IsMark(w.kids[at], id) && w.kids[at].attrs[ColorAttr] == color
      && w.kids[at].attrs[StyleAttr] == BackgroundStyle(color)
      && TextContent(w.kids[at]) == RangeText(sh)
      && TextContent(w) == TextContent(sh.parent.focus)
  {
    var kids := sh.parent.focus.kids;
    var pieces := Split(kids, sh.start, sh.end);
    var mark := NewMark(color, id, pieces.frag);
    TextAround(pieces.pre, mark, pieces.post);
    SplitLengths(kids, sh.start, sh.end);
    SplitText(kids, sh.start, sh.end);
    assert TextContent(mark) == TextOfAll(pieces.frag);
  }

  /** The new mark carries exactly its own id and holds the fragment. */
  lemma NewMarkIs(color: string, id: string, frag: seq<Node>, other: string)
    ensures var m := NewMark(color, id, frag); m.Elem? && m.kids == frag && (IsMark(m, other) <==> other == id)
  {
    assert IsMark(Elem(MarkTag, map[ClassAttr := MarkClass, IdAttr := id], frag), other) <==> other == id;
  }

  /** Putting an element holding `frag` between `pre` and `post` adds its own mark, if any,
      to theirs and the fragment's. */
  lemma SpliceInMarks(pre: seq<Node>, mark: Node, post: seq<Node>, other: string)
    requires mark.Elem?
    ensures MarkCountAll(pre + [mark] + post, other) ==
      MarkCountAll(pre, other) + MarkCountAll(mark.kids, other) + MarkCountAll(post, other)
      + (if IsMark(mark, other) then 1 else 0)
  {
    MarkCountAllAppend(pre + [mark], post, other);
    MarkCountAllAppend(pre, [mark], other);
    assert MarkCountAll([mark], other) == MarkCount(mark, other);
    assert MarkCount(mark, other) == (if IsMark(mark, other) then 1 else 0) + MarkCountAll(mark.kids, other);
  }

  /** The wrapped parent holds one more element carrying the id, the mark, and as many
      carrying any other id as before. */
  lemma WrappedMarks(sh: Shape, color: string, id: string, other: string)
    requires WellFormed(sh)
    ensures MarkCount(Wrapped(sh, color, id), other) ==
      MarkCount(sh.parent.focus, other) + (if other == id then 1 else 0)
  {
    var p := sh.parent.focus;
    var pieces := Split(p.kids, sh.start, sh.end);
    var mark := NewMark(color, id, pieces.frag);
    NewMarkIs(color, id, pieces.frag, other);
    SplitMarks(p.kids, sh.start, sh.end, other);
    SpliceInMarks(pieces.pre, mark, pieces.post, other);
  }

  /** What `wrapRangeWithMark` promises: nothing for a blank range; otherwise the mark
      carries the id and the color, its text is exactly the range's former text, its parent
      sits where it was with the same text, the document's text is unchanged, and the
      document holds one more element carrying the id. */
  lemma WrapSpec(r: Range, color: string, id: string)
    ensures Classify(r).None? ==> Wrap(r, color, id).None?
    ensures Classify(r).Some? ==> (Wrap(r, color, id).None? <==> IsBlank(RangeText(Classify(r).value)))
    ensures Wrap(r, color, id).Some? ==>
      var m := Wrap(r, color, id).value;
      var sh := Classify(r).value;
      && IsMark(m.focus, id) && m.focus.attrs[ColorAttr] == color
      && m.focus.attrs[StyleAttr] == BackgroundStyle(color)
      && TextContent(m.focus) == RangeText(sh)
      && m.up != [] && Parent(m).up == sh.parent.up
      && TextContent(Parent(m).focus) == TextContent(sh.parent.focus)
      && TextContent(Root(m)) == TextContent(Root(sh.parent))
      && MarkCount(Root(m), id) == MarkCount(Root(sh.parent), id) + 1
  {
    if Wrap(r, color, id).Some? {
      var sh := Classify(r).value;
      var at := |Split(sh.parent.focus.kids, sh.start, sh.end).pre|;
      var w := Wrapped(sh, color, id);
      var parent' := sh.parent.(focus := w);
      WrappedText(sh, color, id);
      WrappedMarks(sh, color, id, id);
      ParentOfChild(parent', at);
      ReplaceKeepsText(sh.parent, w);
      RootMarks(sh.parent, id);
      RootMarks(parent', id);
    }
  }

  /** Below the document, wrapping adds exactly the one element carrying the id and changes
      the number carrying any other id not at all. */
  lemma WrapMarks(r: Range, color: string, id: string, x: string)
    requires Wrap(r, color, id).Some?
    ensures MarksBelow(Root(Wrap(r, color, id).value), x) ==
      MarksBelow(Root(Classify(r).value.parent), x) + (if x == id then 1 else 0)
  {
    var sh := Classify(r).value;
    var at := |Split(sh.parent.focus.kids, sh.start, sh.end).pre|;
    var w := Wrapped(sh, color, id);
    var parent' := sh.parent.(focus := w);
    WrappedText(sh, color, id);
    WrappedMarks(sh, color, id, x);
    ParentOfChild(parent', at);
    ReplaceMarks(sh.parent, w, x);
  }

  /** Recoloring an element below the document leaves the number of elements carrying any
      id as it was. */
  lemma RecolorMarks(m: Cursor, color: string, x: string)
    requires m.focus.Elem? && m.up != []
    ensures MarksBelow(Replace(m, ApplyColorToMark(m.focus, color)), x) == MarksBelow(Root(m), x)
  {
    var n := ApplyColorToMark(m.focus, color);
    assert MarkCount(n, x) == MarkCount(m.focus, x);
    ReplaceMarks(m, n, x);
  }

  // ---------------------------------------------------------------------------------------
  // Unwrapping.
  // ---------------------------------------------------------------------------------------

  /** The children with the element at `at` replaced by that element's own children. */
  function SpliceOut(kids: seq<Node>, at: nat): seq<Node>
    requires at < |kids| && kids[at].Elem?
  {
    kids[..at] + kids[at].kids + kids[at + 1..]
  }

  /** Moving a mark's children out in front of it one at a time, while it has a first
      child, and then removing the emptied mark, on the children of its parent with the mark
      at index `at`. */
  method MoveChildrenOut(kids: seq<Node>, at: nat) returns (result: seq<Node>)
    requires at < |kids| && kids[at].Elem?
    ensures result == SpliceOut(kids, at)
  {
    var mark := kids[at];
    var current := kids;
    var pos := at;
    while current[pos].kids != []
      invariant at <= pos <= at + |mark.kids|
      invariant current == kids[..at] + mark.kids[..pos - at] + [mark.(kids := mark.kids[pos - at..])] + kids[at + 1..]
      decreases |mark.kids| - (pos - at)
    {
      var m := current[pos];
      assert m == mark.(kids := mark.kids[pos - at..]);
      assert mark.kids[..pos - at] + [m.kids[0]] == mark.kids[..pos + 1 - at];
      assert m.kids[1..] == mark.kids[pos + 1 - at..];
      current := current[..pos] + [m.kids[0], m.(kids := m.kids[1..])] + current[pos + 1..];
      pos := pos + 1;
    }
    assert mark.kids[..pos - at] == mark.kids;
    result := current[..pos] + current[pos + 1..];
  }

  /** What `removeMarkFromDom(id)` leaves of the document `doc`: nothing changes when no
      element carries the id; otherwise the first one in document order is replaced by its
      children and its parent is normalized. */
  function Unwrapped(doc: Node, id: string): Node
  {
    match QuerySelector(doc, id)
    case None => doc
    case Some(mark) =>
      ChildOfParent(mark);
      var parent := Parent(mark);
      Replace(parent, Normalize(parent.focus.(kids := SpliceOut(parent.focus.kids, Index(mark)))))
  }

  /** `removeMarkFromDom(id)` on the document `doc`, returning the document afterwards. */
  method RemoveMarkFromDom(doc: Node, id: string) returns (result: Node)
    ensures result == Unwrapped(doc, id)
  {
    var found := QuerySelector(doc, id);
    if found.None? || found.value.up == [] {
      return doc;
    }
    var mark := found.value;
    ChildOfParent(mark);
    var parent := Parent(mark);
    var kids := MoveChildrenOut(parent.focus.kids, Index(mark));
    result := Replace(parent, Normalize(parent.focus.(kids := kids)));
  }

  /** The parent of the mark `removeMarkFromDom(id)` takes out. */
  function MarkParent(doc: Node, id: string): Cursor
    requires MarksBelow(doc, id) > 0
  {
    Parent(QuerySelector(doc, id).value)
  }

  /** Without an element carrying the id, `removeMarkFromDom` changes nothing. */
  lemma UnwrapAbsent(doc: Node, id: string)
    ensures MarksBelow(doc, id) == 0 <==> QuerySelector(doc, id).None?
    ensures MarksBelow(doc, id) == 0 ==> Unwrapped(doc, id) == doc
  {
  }

  lemma SpliceOutText(kids: seq<Node>, at: nat)
    requires at < |kids| && kids[at].Elem?
    ensures TextOfAll(SpliceOut(kids, at)) == TextOfAll(kids)
  {
    assert kids == (kids[..at] + [kids[at]]) + kids[at + 1..];
    TextOfAllAppend(kids[..at] + [kids[at]], kids[at + 1..]);
    TextOfAllAppend(kids[..at], [kids[at]]);
    TextOfAllAppend(kids[..at] + kids[at].kids, kids[at + 1..]);
    TextOfAllAppend(kids[..at], kids[at].kids);
    assert TextOfAll([kids[at]]) == TextContent(kids[at]);
  }

  lemma SpliceOutMarks(kids: seq<Node>, at: nat, id: string, other: string)
    requires at < |kids| && IsMark(kids[at], id)
    ensures MarkCountAll(SpliceOut(kids, at), other) == MarkCountAll(kids, other) - (if other == id then 1 else 0)
  {
    assert kids == (kids[..at] + [kids[at]]) + kids[at + 1..];
    MarkCountAllAppend(kids[..at] + [kids[at]], kids[at + 1..], other);
    MarkCountAllAppend(kids[..at], [kids[at]], other);
    MarkCountAllAppend(kids[..at] + kids[at].kids, kids[at + 1..], other);
    MarkCountAllAppend(kids[..at], kids[at].kids, other);
    assert MarkCountAll([kids[at]], other) == MarkCount(kids[at], other);
  }

  /** Taking a mark out keeps the document's text. */
  lemma UnwrapText(doc: Node, id: string)
    ensures TextContent(Unwrapped(doc, id)) == TextContent(doc)
  {
    if QuerySelector(doc, id).Some? {
      var mark := QuerySelector(doc, id).value;
      ChildOfParent(mark);
      var parent := Parent(mark);
      ParentOfChild(parent, Index(mark));
      SpliceOutText(parent.focus.kids, Index(mark));
      ReplaceKeepsText(parent, Normalize(parent.focus.(kids := SpliceOut(parent.focus.kids, Index(mark)))));
    }
  }

  /** Taking a mark out leaves one element carrying the id fewer, and as many carrying any
      other id as before. */
  lemma UnwrapMarks(doc: Node, id: string, other: string)
    ensures MarkCount(Unwrapped(doc, id), other) ==
      MarkCount(doc, other) - (if other == id && MarksBelow(doc, id) > 0 then 1 else 0)
  {
    if MarksBelow(doc, id) > 0 {
      var mark := QuerySelector(doc, id).value;
      ChildOfParent(mark);
      var parent := Parent(mark);
      ParentOfChild(parent, Index(mark));
      var spliced := parent.focus.(kids := SpliceOut(parent.focus.kids, Index(mark)));
      SpliceOutMarks(parent.focus.kids, Index(mark), id, other);
      NormalizeMarks(spliced, other);
      RootMarks(parent, other);
      RootMarks(parent.(focus := Normalize(spliced)), other);
    }
  }

  /** Below the document, taking a mark out leaves one element carrying the id fewer and
      as many carrying any other id as before. */
  lemma UnwrapMarksBelow(doc: Node, id: string, other: string)
    ensures MarksBelow(Unwrapped(doc, id), other) ==
      MarksBelow(doc, other) - (if other == id && MarksBelow(doc, id) > 0 then 1 else 0)
  {
    UnwrapMarks(doc, id, other);
    UnwrapKeepsRoot(doc, id);
    if doc.Elem? {
      assert IsMark(Unwrapped(doc, id), other) == IsMark(doc, other);
    }
  }

  /** Taking a mark out leaves the document element itself as it was. */
  lemma UnwrapKeepsRoot(doc: Node, id: string)
    ensures Unwrapped(doc, id).Elem? <==> doc.Elem?
    ensures doc.Elem? ==> Unwrapped(doc, id).tag == doc.tag && Unwrapped(doc, id).attrs == doc.attrs
  {
    if MarksBelow(doc, id) > 0 {
      var mark := QuerySelector(doc, id).value;
      ChildOfParent(mark);
      var parent := Parent(mark);
      ParentOfChild(parent, Index(mark));
      var q := Normalize(parent.focus.(kids := SpliceOut(parent.focus.kids, Index(mark))));
      if parent.up != [] {
        ReplaceKeepsRoot(parent, q);
      }
    }
  }

  /** After taking a mark out, the node at its parent's place holds the parent's text with
      its text runs merged, as `parent.normalize()` leaves it. */
  lemma UnwrapNormalizes(doc: Node, id: string)
    requires MarksBelow(doc, id) > 0
    ensures var p := MarkParent(doc, id);
      var q := Resolve(Unwrapped(doc, id), Some(NodePath(p)));
      && q.Some? && IsNormal(q.value.focus)
      && TextContent(q.value.focus) == TextContent(p.focus)
      && q.value.focus.Elem? && q.value.focus.tag == p.focus.tag && q.value.focus.attrs == p.focus.attrs
  {
    var mark := QuerySelector(doc, id).value;
    ChildOfParent(mark);
    var parent := Parent(mark);
    var spliced := parent.focus.(kids := SpliceOut(parent.focus.kids, Index(mark)));
    var c := parent.(focus := Normalize(spliced));
    SpliceOutText(parent.focus.kids, Index(mark));
    NodePathFocus(parent, Normalize(spliced));
    DescendNodePath(c);
  }

  /** Wrapping a range with an id no element carried yet and then taking that id's mark out
      gives back a document with the same text and no element carrying the id. */
  lemma WrapThenUnwrap(r: Range, color: string, id: string)
    requires Wrap(r, color, id).Some?
    requires MarkCount(Root(Classify(r).value.parent), id) == 0
    ensures var doc := Root(Wrap(r, color, id).value);
      && MarkCount(doc, id) == 1
      && TextContent(Unwrapped(doc, id)) == TextContent(Root(Classify(r).value.parent))
      && MarkCount(Unwrapped(doc, id), id) == 0
  {
    var doc := Root(Wrap(r, color, id).value);
    var sh := Classify(r).value;
    var at := |Split(sh.parent.focus.kids, sh.start, sh.end).pre|;
    var w := Wrapped(sh, color, id);
    WrapSpec(r, color, id);
    ParentOfChild(sh.parent.(focus := w), at);
    ReplaceKeepsRoot(sh.parent, w);
    assert !IsMark(doc, id);
    UnwrapText(doc, id);
    UnwrapMarks(doc, id, id);
  }
}
