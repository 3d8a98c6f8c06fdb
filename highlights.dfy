/** The highlighter's page state and its store operations: the list of saved highlights
    (`state.highlights`), the snapshot last written to storage, and the document whose marks
    they describe. Every operation is a method of `Page` that updates those fields in place,
    proved equal to a function on `Snapshot` values; the properties are lemmas about those
    functions. */
module Highlights {
  import opened Wrappers
  import opened TextUtil
  import opened Dom
  import opened PathCodec
  import opened MarkWrapper

  // ---------------------------------------------------------------------------------------
  // Stored entries and snippets.
  // ---------------------------------------------------------------------------------------

  /** A stored highlight. A path that was not an array when read back is `None`. */
  datatype Entry = Entry(
    id: string, color: string,
    startPath: Option<seq<int>>, startOffset: int,
    endPath: Option<seq<int>>, endOffset: int,
    textSnippet: string, createdAt: int)

  /** The ids of the entries, in order. */
  function Ids(es: seq<Entry>): (ids: seq<string>)
    ensures |ids| == |es| && forall i :: 0 <= i < |es| ==> ids[i] == es[i].id
  {
    seq(|es|, i requires 0 <= i < |es| => es[i].id)
  }

  /** No two entries share an id, as `createId` ensures for the entries the highlighter
      creates. */
  predicate UniqueIds(es: seq<Entry>)
  {
    forall i, j :: 0 <= i < j < |es| ==> es[i].id != es[j].id
  }

  const SnippetMax := 80
  const SnippetKeep := 77
  const Ellipsis := '\U{2026}'

  /** `text.replace(/\s+/g, ' ').trim()`. */
  function NormalizeSpace(text: string): (n: string)
    ensures SingleSpaced(n)
    ensures n == [] || (!IsSpace(n[0]) && !IsSpace(n[|n| - 1]))
    ensures Without(n, Whitespace) == Without(text, Whitespace)
    ensures n == Join(Words(text, Whitespace), " ")
  {
    var c := CollapseRuns(text, Whitespace, ' ');
    TrimWords(text);
    CollapseKeeps(text, Whitespace, ' ');
    TrimKeeps(c);
    TrimKeepsSingleSpaced(c);
    Trim(c)
  }

  /** `getSnippet(text)`: the text with whitespace runs collapsed to one space and trimmed;
      when that is longer than 80 characters, its first 77 followed by an ellipsis. */
  function GetSnippet(text: string): (r: string)
    ensures |r| <= SnippetMax
  {
    if text == "" then ""
    else
      var n := NormalizeSpace(text);
      if |n| > SnippetMax then n[..SnippetKeep] + [Ellipsis] else n
  }

  /** A snippet has no leading or trailing whitespace and no whitespace other than single
      spaces; a short one keeps every other character of the text, in order, and a long one
      is the start of the normalized text followed by an ellipsis. */
  lemma SnippetShape(text: string)
    ensures var r := GetSnippet(text);
      && (r == [] || (!IsSpace(r[0]) && !IsSpace(r[|r| - 1])))
      && SingleSpaced(r)
      && (|NormalizeSpace(text)| <= SnippetMax ==> Without(r, Whitespace) == Without(text, Whitespace))
      && (|NormalizeSpace(text)| > SnippetMax ==>
            |r| == SnippetKeep + 1 && r[..SnippetKeep] == NormalizeSpace(text)[..SnippetKeep] && r[SnippetKeep] == Ellipsis)
      && var w := Join(Words(text, Whitespace), " ");
         r == if |w| <= SnippetMax then w else w[..SnippetKeep] + [Ellipsis]
  {
    if text != "" {
      var n := NormalizeSpace(text);
      if |n| > SnippetMax {
        LongSnippet(n);
      }
    }
  }

  /** Cutting a normalized text to 77 characters and an ellipsis keeps it single-spaced
      and leaves no whitespace at either end. */
  lemma LongSnippet(n: string)
    requires |n| > SnippetMax && SingleSpaced(n) && !IsSpace(n[0])
    ensures var r := n[..SnippetKeep] + [Ellipsis];
      !IsSpace(r[0]) && !IsSpace(r[|r| - 1]) && SingleSpaced(r)
  {
    var r := n[..SnippetKeep] + [Ellipsis];
    assert !IsSpace(Ellipsis);
    forall i | 0 <= i < SnippetKeep
      ensures r[i] == n[i]
    {
    }
  }

  // ---------------------------------------------------------------------------------------
  // serializeRange / deserializeRange.
  // ---------------------------------------------------------------------------------------

  /** `range.toString()` for the ranges this model wraps; the empty string for any other. */
  function RangeString(r: Range): string
  {
    match Classify(r)
    case Some(sh) => RangeText(sh)
    case None => ""
  }

  /** What `serializeRange(range, color, id)` records, with `now` for `Date.now()`. */
  function Serialized(r: Range, color: string, id: string, now: int): Entry
  {
    Entry(id, color, Some(NodePath(r.startContainer)), r.startOffset,
      Some(NodePath(r.endContainer)), r.endOffset, GetSnippet(RangeString(r)), now)
  }

  method SerializeRange(r: Range, color: string, id: string, now: int) returns (e: Entry)
    ensures e == Serialized(r, color, id, now)
  {
    var startPath := GetNodePath(r.startContainer);
    var endPath := GetNodePath(r.endContainer);
    e := Entry(id, color, Some(startPath), r.startOffset, Some(endPath), r.endOffset,
      GetSnippet(RangeString(r)), now);
  }

  /** `range.setStart(node, offset)` (section 5.5 of the WHATWG DOM Standard): a start
      after the current end moves the end along with it. */
  function SetStart(r: Range, c: Cursor, o: nat): Range
  {
    if BoundaryAfter(NodePath(c), o, NodePath(r.endContainer), r.endOffset) then Range(c, o, c, o)
    else r.(startContainer := c, startOffset := o)
  }

  /** `range.setEnd(node, offset)`: an end before the current start moves the start along
      with it. */
  function SetEnd(r: Range, c: Cursor, o: nat): Range
  {
    if BoundaryAfter(NodePath(r.startContainer), r.startOffset, NodePath(c), o) then Range(c, o, c, o)
    else r.(endContainer := c, endOffset := o)
  }

  /** What `deserializeRange(entry)` builds on the document `doc`: nothing when either path
      does not resolve; otherwise a fresh range (collapsed at the start of the document)
      whose start and then end are set to the resolved nodes at the clamped offsets. */
  function Deserialized(doc: Node, e: Entry): Option<Range>
  {
    var s := Resolve(doc, e.startPath);
    var t := Resolve(doc, e.endPath);
    if s.None? || t.None? then None
    else
      var initial := Range(Top(doc), 0, Top(doc), 0);
      var r := SetStart(initial, s.value, ClampOffset(Some(s.value.focus), e.startOffset));
      Some(SetEnd(r, t.value, ClampOffset(Some(t.value.focus), e.endOffset)))
  }

  method DeserializeRange(doc: Node, e: Entry) returns (r: Option<Range>)
    ensures r == Deserialized(doc, e)
  {
    var startNode := ResolveNodePath(doc, e.startPath);
    var endNode := ResolveNodePath(doc, e.endPath);
    if startNode.None? || endNode.None? {
      return None;
    }
    var range := Range(Top(doc), 0, Top(doc), 0);
    range := SetStart(range, startNode.value, ClampOffset(Some(startNode.value.focus), e.startOffset));
    range := SetEnd(range, endNode.value, ClampOffset(Some(endNode.value.focus), e.endOffset));
    return Some(range);
  }

  /** `deserializeRange` fails exactly when a path does not resolve, and otherwise always
      yields a range the DOM accepts on that document. */
  lemma DeserializedValid(doc: Node, e: Entry)
    ensures Deserialized(doc, e).None? <==> Resolve(doc, e.startPath).None? || Resolve(doc, e.endPath).None?
    ensures Deserialized(doc, e).Some? ==> ValidRange(doc, Deserialized(doc, e).value)
  {
    if Deserialized(doc, e).Some? {
      var s := Resolve(doc, e.startPath).value;
      var t := Resolve(doc, e.endPath).value;
      NodePathOfResolve(doc, e.startPath.value);
      NodePathOfResolve(doc, e.endPath.value);
      var r := Deserialized(doc, e).value;
      assert !BoundaryAfter(NodePath(r.endContainer), r.endOffset, NodePath(r.endContainer), r.endOffset);
    }
  }

  /** Every boundary point inside the document is at or after its start. */
  lemma AfterDocumentStart(c: Cursor, o: nat)
    requires c.up != [] || o > 0
    ensures BoundaryAfter(NodePath(c), o, [], 0)
  {
  }

  /** The range a stored entry describes comes back unchanged on the document it was
      recorded on. */
  lemma DeserializeRecorded(doc: Node, r: Range, e: Entry)
    requires ValidRange(doc, r)
    requires e.startPath == Some(NodePath(r.startContainer)) && e.startOffset == r.startOffset
    requires e.endPath == Some(NodePath(r.endContainer)) && e.endOffset == r.endOffset
    ensures Deserialized(doc, e) == Some(r)
  {
    var s, t := r.startContainer, r.endContainer;
    ResolveOfNodePath(s);
    ResolveOfNodePath(t);
    var initial := Range(Top(doc), 0, Top(doc), 0);
    if s.up != [] || r.startOffset > 0 {
      AfterDocumentStart(s, r.startOffset);
    } else {
      assert s == Top(doc);
    }
    assert SetStart(initial, s, r.startOffset) == Range(s, r.startOffset, s, r.startOffset);
  }

  /** `deserializeRange(serializeRange(range))` on the same document is the range. */
  lemma DeserializeSerialized(doc: Node, r: Range, color: string, id: string, now: int)
    requires ValidRange(doc, r)
    ensures Deserialized(doc, Serialized(r, color, id, now)) == Some(r)
  {
    DeserializeRecorded(doc, r, Serialized(r, color, id, now));
  }

  // ---------------------------------------------------------------------------------------
  // The page state as a value, and what each operation does to it.
  // ---------------------------------------------------------------------------------------

  /** The document, `state.highlights`, and the list storage last received (`None` before
      anything was stored, or when what is stored is not an array). */
  datatype Snapshot = Snapshot(doc: Node, highlights: seq<Entry>, stored: Option<seq<Entry>>)

  /** `saveHighlights()`. */
  function Saved(s: Snapshot): Snapshot
  {
    s.(stored := Some(s.highlights))
  }

  /** `state.highlights.findIndex((item) => item.id === id)`. */
  function IndexOf(es: seq<Entry>, id: string): (i: int)
    ensures -1 <= i < |es|
    ensures i >= 0 ==> es[i].id == id && forall j :: 0 <= j < i ==> es[j].id != id
    ensures i == -1 <==> forall j :: 0 <= j < |es| ==> es[j].id != id
  {
    if es == [] then -1
    else if es[0].id == id then 0
    else
      var k := IndexOf(es[1..], id);
      if k < 0 then -1 else k + 1
  }

  /** `es.filter((item) => !ids.includes(item.id))`. */
  function Prune(es: seq<Entry>, ids: seq<string>): (r: seq<Entry>)
    ensures |r| <= |es|
    ensures forall j :: 0 <= j < |r| ==> r[j].id !in ids
  {
    if es == [] then []
    else (if es[0].id in ids then [] else [es[0]]) + Prune(es[1..], ids)
  }

  lemma {:induction false} PruneAppend(a: seq<Entry>, b: seq<Entry>, ids: seq<string>)
    ensures Prune(a + b, ids) == Prune(a, ids) + Prune(b, ids)
  {
    if a == [] {
      assert a + b == b;
    } else {
      assert (a + b)[1..] == a[1..] + b;
      PruneAppend(a[1..], b, ids);
    }
  }

  /** Pruning ids no entry carries changes nothing. */
  lemma {:induction false} PruneNothing(es: seq<Entry>, ids: seq<string>)
    requires forall i :: 0 <= i < |es| ==> es[i].id !in ids
    ensures Prune(es, ids) == es
  {
    if es != [] {
      PruneNothing(es[1..], ids);
    }
  }

  /** An id no entry carries can be left out of the pruned ids. */
  lemma {:induction false} PruneIgnores(es: seq<Entry>, x: string, ids: seq<string>)
    requires x !in Ids(es)
    ensures Prune(es, [x] + ids) == Prune(es, ids)
  {
    if es != [] {
      assert es[0].id == Ids(es)[0];
      assert Ids(es[1..]) == Ids(es)[1..];
      PruneIgnores(es[1..], x, ids);
    }
  }

  /** `eraseHighlight(id)`: nothing when no entry has the id; otherwise the mark is taken
      out of the document, the first entry with the id is spliced out, and the list is
      saved. */
  function Erased(s: Snapshot, id: string): Snapshot
  {
    if IndexOf(s.highlights, id) < 0 then s
    else Saved(Snapshot(Unwrapped(s.doc, id), SplicedOut(s.highlights, id), s.stored))
  }

  /** `splice(index, 1)` at the first entry with the id, when there is one. */
  function SplicedOut(hs: seq<Entry>, id: string): seq<Entry>
  {
    var i := IndexOf(hs, id);
    if i < 0 then hs else hs[..i] + hs[i + 1..]
  }

  /** Erasing an id no entry has changes nothing at all. */
  lemma EraseUnknown(s: Snapshot, id: string)
    requires id !in Ids(s.highlights)
    ensures Erased(s, id) == s
  {
    assert forall j :: 0 <= j < |s.highlights| ==> s.highlights[j].id == Ids(s.highlights)[j];
  }

  /** With distinct ids, splicing out the first entry with the id removes every entry with
      it. */
  lemma SpliceFirst(hs: seq<Entry>, id: string)
    requires UniqueIds(hs)
    ensures SplicedOut(hs, id) == Prune(hs, [id])
  {
    var i := IndexOf(hs, id);
    if i < 0 {
      PruneNothing(hs, [id]);
    } else {
      var before, after := hs[..i], hs[i + 1..];
      assert hs == before + ([hs[i]] + after);
      PruneAppend(before, [hs[i]] + after, [id]);
      PruneDrops(hs[i], after, [id]);
      NoneBefore(hs, id);
      PruneNothing(before, [id]);
      NoneAfter(hs, i, after);
      PruneNothing(after, [id]);
    }
  }

  lemma PruneDrops(e: Entry, rest: seq<Entry>, ids: seq<string>)
    requires e.id in ids
    ensures Prune([e] + rest, ids) == Prune(rest, ids)
  {
    assert ([e] + rest)[1..] == rest;
  }

  lemma NoneBefore(hs: seq<Entry>, id: string)
    requires IndexOf(hs, id) >= 0
    ensures var i := IndexOf(hs, id); forall j :: 0 <= j < |hs[..i]| ==> hs[..i][j].id !in [id]
  {
  }

  lemma NoneAfter(hs: seq<Entry>, i: nat, after: seq<Entry>)
    requires UniqueIds(hs) && i < |hs| && after == hs[i + 1..]
    ensures forall j :: 0 <= j < |after| ==> after[j].id !in [hs[i].id]
  {
    forall j | 0 <= j < |after|
      ensures after[j].id !in [hs[i].id]
    {
      assert after[j] == hs[i + 1 + j];
    }
  }

  /** Pruning keeps only ids that were there. */
  lemma {:induction false} PruneIds(hs: seq<Entry>, ids: seq<string>)
    ensures forall x :: x in Ids(Prune(hs, ids)) ==> x in Ids(hs)
    decreases |hs|
  {
    if hs != [] {
      PruneIds(hs[1..], ids);
      assert Ids(hs) == [hs[0].id] + Ids(hs[1..]);
      assert Ids(Prune(hs, ids)) == (if hs[0].id in ids then [] else [hs[0].id]) + Ids(Prune(hs[1..], ids));
    }
  }

  /** Pruning keeps distinct ids distinct. */
  lemma {:induction false} PruneUnique(hs: seq<Entry>, ids: seq<string>)
    requires UniqueIds(hs)
    ensures UniqueIds(Prune(hs, ids))
    decreases |hs|
  {
    if hs != [] {
      PruneUnique(hs[1..], ids);
      PruneIds(hs[1..], ids);
      var rest := Prune(hs[1..], ids);
      if hs[0].id !in ids {
        assert hs[0].id !in Ids(hs[1..]) by {
          forall j | 0 <= j < |hs| - 1
            ensures Ids(hs[1..])[j] != hs[0].id
          {
            assert hs[1..][j] == hs[j + 1];
          }
        }
        var r := [hs[0]] + rest;
        forall a, b | 0 <= a < b < |r|
          ensures r[a].id != r[b].id
        {
          if a == 0 {
            assert r[b].id == Ids(rest)[b - 1];
          } else {
            assert r[a] == rest[a - 1] && r[b] == rest[b - 1];
          }
        }
      }
    }
  }

  /** With distinct ids, erasing removes exactly the entry with the id and keeps the others
      in their order. */
  lemma EraseRemovesEntry(s: Snapshot, id: string)
    requires UniqueIds(s.highlights)
    ensures Erased(s, id).highlights == Prune(s.highlights, [id])
  {
    SpliceFirst(s.highlights, id);
  }

  /** After erasing, the ids stay distinct and the id is gone from the list. */
  lemma EraseKeepsUnique(s: Snapshot, id: string)
    requires UniqueIds(s.highlights)
    ensures UniqueIds(Erased(s, id).highlights)
    ensures id !in Ids(Erased(s, id).highlights)
  {
    EraseRemovesEntry(s, id);
    PruneUnique(s.highlights, [id]);
    NotInIds(Prune(s.highlights, [id]), id);
  }

  lemma NotInIds(es: seq<Entry>, x: string)
    requires forall j :: 0 <= j < |es| ==> es[j].id !in [x]
    ensures x !in Ids(es)
  {
    var ids := Ids(es);
    forall j | 0 <= j < |ids|
      ensures ids[j] != x
    {
      assert ids[j] == es[j].id;
    }
  }

  /** Erasing keeps the document's text and, when the id has an entry and a mark, takes
      exactly one mark with the id out of the document. */
  lemma EraseKeepsText(s: Snapshot, id: string)
    ensures TextContent(Erased(s, id).doc) == TextContent(s.doc)
    ensures IndexOf(s.highlights, id) >= 0 && MarksBelow(s.doc, id) > 0 ==>
      MarkCount(Erased(s, id).doc, id) == MarkCount(s.doc, id) - 1
  {
    if IndexOf(s.highlights, id) >= 0 {
      UnwrapText(s.doc, id);
      UnwrapMarks(s.doc, id, id);
    }
  }

  /** With distinct ids, a second `eraseHighlight(id)` changes nothing. */
  lemma EraseIdempotent(s: Snapshot, id: string)
    requires UniqueIds(s.highlights)
    ensures Erased(Erased(s, id), id) == Erased(s, id)
  {
    EraseKeepsUnique(s, id);
    EraseUnknown(Erased(s, id), id);
  }

  /** `ids.forEach(removeMarkFromDom)`. */
  function UnwrapAll(doc: Node, ids: seq<string>): Node
    decreases |ids|
  {
    if ids == [] then doc else UnwrapAll(Unwrapped(doc, ids[0]), ids[1..])
  }

  /** The number of times `x` occurs in `ids`. */
  function Occurrences(ids: seq<string>, x: string): nat
  {
    if ids == [] then 0 else (if ids[0] == x then 1 else 0) + Occurrences(ids[1..], x)
  }

  /** Taking out the marks of a list of ids keeps the document's text, and removes one mark
      of an id for every time the id occurs in the list, as long as there is one left. */
  lemma {:induction false} UnwrapAllSpec(doc: Node, ids: seq<string>, x: string)
    ensures TextContent(UnwrapAll(doc, ids)) == TextContent(doc)
    ensures MarksBelow(UnwrapAll(doc, ids), x) ==
      if MarksBelow(doc, x) <= Occurrences(ids, x) then 0 else MarksBelow(doc, x) - Occurrences(ids, x)
    decreases |ids|
  {
    if ids != [] {
      var d := Unwrapped(doc, ids[0]);
      UnwrapText(doc, ids[0]);
      UnwrapMarks(doc, ids[0], x);
      UnwrapKeepsRoot(doc, ids[0]);
      assert IsMark(d, x) == IsMark(doc, x);
      UnwrapAllSpec(d, ids[1..], x);
    }
  }

  /** `clearAllHighlights()`: nothing when the list is empty; otherwise every entry's mark
      is taken out, the list becomes empty and is saved. */
  function Cleared(s: Snapshot): Snapshot
  {
    if s.highlights == [] then s
    else Saved(Snapshot(UnwrapAll(s.doc, Ids(s.highlights)), [], s.stored))
  }

  /** After clearing, no entry is left, the document keeps its text, and with distinct ids
      the marks of all the former entries are gone when each had at most one. */
  lemma ClearRemovesAll(s: Snapshot)
    ensures Cleared(s).highlights == []
    ensures s.highlights != [] ==> Cleared(s).stored == Some([])
    ensures TextContent(Cleared(s).doc) == TextContent(s.doc)
    ensures UniqueIds(s.highlights) ==> forall x :: x in Ids(s.highlights) && MarksBelow(s.doc, x) <= 1 ==>
      MarksBelow(Cleared(s).doc, x) == 0
    ensures Consistent(s) ==> Consistent(Cleared(s))
  {
    if s.highlights != [] {
      var ids := Ids(s.highlights);
      UnwrapAllSpec(s.doc, ids, "");
      forall x | x in ids && MarksBelow(s.doc, x) <= 1
        ensures MarksBelow(Cleared(s).doc, x) == 0
      {
        UnwrapAllSpec(s.doc, ids, x);
        OccursOnce(ids, x);
      }
    }
  }

  lemma {:induction false} OccursOnce(ids: seq<string>, x: string)
    requires x in ids
    ensures Occurrences(ids, x) >= 1
  {
    if ids[0] != x {
      OccursOnce(ids[1..], x);
    }
  }

  /** `restoreHighlight(entry)` on the document `doc`: nothing when a mark with the entry's
      id is already there or the stored range does not resolve; otherwise the wrap. */
  function Restored(doc: Node, e: Entry): Option<Cursor>
  {
    if QuerySelector(doc, e.id).Some? then None
    else
      match Deserialized(doc, e)
      case None => None
      case Some(r) => Wrap(r, e.color, e.id)
  }

  /** The document after `restoreHighlight(entry)`. */
  function AfterRestore(doc: Node, e: Entry): Node
  {
    match Restored(doc, e)
    case Some(m) => Root(m)
    case None => doc
  }

  /** The mark for an entry, found in the document or else made by restoring the entry, and
      the document after that. */
  function Located(doc: Node, e: Entry): (Option<Cursor>, Node)
  {
    var found := QuerySelector(doc, e.id);
    if found.Some? then (found, doc) else (Restored(doc, e), AfterRestore(doc, e))
  }

  /** A successful restore marks exactly the stored range, keeps the document's text, and
      adds the entry's one mark. */
  lemma RestoreSpec(doc: Node, e: Entry)
    ensures Restored(doc, e).Some? ==>
      && MarksBelow(doc, e.id) == 0
      && Deserialized(doc, e).Some?
      && Restored(doc, e) == Wrap(Deserialized(doc, e).value, e.color, e.id)
      && TextContent(AfterRestore(doc, e)) == TextContent(doc)
      && IsMark(Restored(doc, e).value.focus, e.id)
    ensures Restored(doc, e).None? ==> AfterRestore(doc, e) == doc
  {
    if Restored(doc, e).Some? {
      var r := Deserialized(doc, e).value;
      DeserializedValid(doc, e);
      WrapSpec(r, e.color, e.id);
      RangeRoot(doc, r);
    }
  }

  /** A supported range's parent belongs to the range's document. */
  lemma RangeRoot(doc: Node, r: Range)
    requires ValidRange(doc, r) && Classify(r).Some?
    ensures Root(Classify(r).value.parent) == doc
  {
    var s := r.startContainer;
    if s.up != [] {
      ChildOfParent(s);
      ParentOfChild(Parent(s), Index(s));
    }
    var e := r.endContainer;
    if e.up != [] {
      ChildOfParent(e);
      ParentOfChild(Parent(e), Index(e));
    }
  }

  /** `applyHighlight(color)` with the saved selection `savedRange`, the new id `id` and the
      clock reading `now`: nothing without a non-collapsed range or when the wrap is
      refused; otherwise the entry recorded before wrapping, with its snippet taken from
      the mark's text, is appended and the list saved. */
  function Applied(s: Snapshot, savedRange: Option<Range>, color: string, id: string, now: int): Snapshot
  {
    if savedRange.None? || Collapsed(savedRange.value) then s
    else
      var r := savedRange.value;
      var entry := Serialized(r, color, id, now);
      match Wrap(r, color, id)
      case None => s
      case Some(m) =>
        var text := TextContent(m.focus);
        var e := entry.(textSnippet := GetSnippet(if text != "" then text else entry.textSnippet));
        Saved(Snapshot(Root(m), s.highlights + [e], s.stored))
  }

  /** What `applyHighlight` appends for the range `r`: the entry recorded from the range,
      with the range's text normalized as its snippet. */
  function AppliedEntry(r: Range, color: string, id: string, now: int): Entry
  {
    Serialized(r, color, id, now).(textSnippet := GetSnippet(RangeString(r)))
  }

  /** A successful `applyHighlight` appends the recorded entry and saves the list, and the
      document keeps its text. */
  lemma ApplyAppends(s: Snapshot, r: Range, color: string, id: string, now: int)
    requires ValidRange(s.doc, r) && Applied(s, Some(r), color, id, now) != s
    ensures var s' := Applied(s, Some(r), color, id, now);
      && Wrap(r, color, id).Some?
      && s' == Saved(Snapshot(Root(Wrap(r, color, id).value), s.highlights + [AppliedEntry(r, color, id, now)], s.stored))
      && TextContent(s'.doc) == TextContent(s.doc)
  {
    WrapSpec(r, color, id);
    RangeRoot(s.doc, r);
  }

  /** A highlight survives a reload: restoring the entry `applyHighlight` stored, on the
      document as it was before (as a fresh load of the page shows it), rebuilds exactly the
      document `applyHighlight` produced. */
  lemma ApplyThenReload(s: Snapshot, r: Range, color: string, id: string, now: int)
    requires ValidRange(s.doc, r) && MarksBelow(s.doc, id) == 0
    requires Applied(s, Some(r), color, id, now) != s
    ensures var e := AppliedEntry(r, color, id, now);
      && Restored(s.doc, e).Some?
      && AfterRestore(s.doc, e) == Applied(s, Some(r), color, id, now).doc
  {
    ApplyAppends(s, r, color, id, now);
    DeserializeRecorded(s.doc, r, AppliedEntry(r, color, id, now));
  }

  /** `restyleHighlight(id, color)`: nothing for an unknown id; the entry is erased when its
      mark is neither present nor restorable; otherwise the mark takes the new color, the
      entry records it, and the list is saved. */
  function Restyled(s: Snapshot, id: string, color: string): Snapshot
  {
    var i := IndexOf(s.highlights, id);
    if i < 0 then s
    else
      var mark := Located(s.doc, s.highlights[i]).0;
      if mark.None? then Erased(s, id)
      else
        var m := mark.value;
        Saved(Snapshot(Replace(m, ApplyColorToMark(m.focus, color)),
          s.highlights[i := s.highlights[i].(color := color)], s.stored))
  }

  /** Restyling a present mark changes only colors: the entry with the id records the new
      color and every other entry stays, the mark at the same place carries the color, and
      the document's text and marks are unchanged. */
  lemma RestyleSpec(s: Snapshot, id: string, color: string)
    requires id in Ids(s.highlights) && MarksBelow(s.doc, id) > 0
    ensures var s' := Restyled(s, id, color);
      var i := IndexOf(s.highlights, id);
      var m := QuerySelector(s.doc, id).value;
      && |s'.highlights| == |s.highlights|
      && s'.highlights[i].color == color
      && s'.highlights[i] == s.highlights[i].(color := color)
      && (forall j :: 0 <= j < |s.highlights| && j != i ==> s'.highlights[j] == s.highlights[j])
      && TextContent(s'.doc) == TextContent(s.doc)
      && (forall x :: MarkCount(s'.doc, x) == MarkCount(s.doc, x))
      && Resolve(s'.doc, Some(NodePath(m))).Some?
      && var n := Resolve(s'.doc, Some(NodePath(m))).value.focus;
         && IsMark(n, id) && ColorAttr in n.attrs && n.attrs[ColorAttr] == color
         && StyleAttr in n.attrs && n.attrs[StyleAttr] == BackgroundStyle(color)
  {
    assert forall j :: 0 <= j < |s.highlights| ==> s.highlights[j].id == Ids(s.highlights)[j];
    var m := QuerySelector(s.doc, id).value;
    var n := ApplyColorToMark(m.focus, color);
    ReplaceKeepsText(m, n);
    forall x
      ensures MarkCount(Restyled(s, id, color).doc, x) == MarkCount(s.doc, x)
    {
      RootMarks(m, x);
      RootMarks(m.(focus := n), x);
    }
    ReplaceResolves(m, n);
  }

  /** Restyling an entry whose mark is missing but can be restored: the mark is restored
      and then takes the color in the document the restore left, the entry records the
      color and the list is saved; the document keeps its text and gains the entry's one
      mark and no other. */
  lemma RestyleRestores(s: Snapshot, id: string, color: string)
    requires IndexOf(s.highlights, id) >= 0 && MarksBelow(s.doc, id) == 0
    requires Restored(s.doc, s.highlights[IndexOf(s.highlights, id)]).Some?
    ensures var s' := Restyled(s, id, color);
      var i := IndexOf(s.highlights, id);
      var m := Restored(s.doc, s.highlights[i]).value;
      && s'.doc == Replace(m, ApplyColorToMark(m.focus, color))
      && s'.highlights == s.highlights[i := s.highlights[i].(color := color)]
      && s'.stored == Some(s'.highlights)
      && TextContent(s'.doc) == TextContent(s.doc)
      && MarksBelow(s'.doc, id) == 1
      && (forall x :: x != id ==> MarksBelow(s'.doc, x) == MarksBelow(s.doc, x))
      && var n := ApplyColorToMark(m.focus, color);
         && Resolve(s'.doc, Some(NodePath(m))) == Some(m.(focus := n))
         && IsMark(n, id) && ColorAttr in n.attrs && n.attrs[ColorAttr] == color
         && StyleAttr in n.attrs && n.attrs[StyleAttr] == BackgroundStyle(color)
         && TextContent(n) == TextContent(m.focus)
  {
    var i := IndexOf(s.highlights, id);
    var e := s.highlights[i];
    RecolorRestored(s.doc, e, color);
  }

  /** Coloring the mark a successful restore made keeps the document's text, adds the
      entry's one mark and no other, and leaves the colored mark where the restore put
      it. */
  lemma RecolorRestored(doc: Node, e: Entry, color: string)
    requires Restored(doc, e).Some?
    ensures var m := Restored(doc, e).value;
      var n := ApplyColorToMark(m.focus, color);
      var d := Replace(m, n);
      && TextContent(d) == TextContent(doc)
      && (forall x :: MarksBelow(d, x) == MarksBelow(doc, x) + (if x == e.id then 1 else 0))
      && Resolve(d, Some(NodePath(m))) == Some(m.(focus := n))
      && TextContent(n) == TextContent(m.focus)
      && IsMark(n, e.id)
  {
    var m := Restored(doc, e).value;
    var n := ApplyColorToMark(m.focus, color);
    LocatedMarks(doc, e, e.id);
    RestoreSpec(doc, e);
    assert TextContent(n) == TextContent(m.focus);
    ReplaceKeepsText(m, n);
    forall x
      ensures MarksBelow(Replace(m, n), x) == MarksBelow(doc, x) + (if x == e.id then 1 else 0)
    {
      RestoreMarks(doc, e, x);
      RecolorMarks(m, color, x);
    }
    ReplaceResolves(m, n);
  }

  /** Restyling an entry whose mark is neither present nor restorable erases the entry and
      leaves the document as it was. */
  lemma RestyleErases(s: Snapshot, id: string, color: string)
    requires IndexOf(s.highlights, id) >= 0 && MarksBelow(s.doc, id) == 0
    requires Restored(s.doc, s.highlights[IndexOf(s.highlights, id)]).None?
    ensures Restyled(s, id, color) == Erased(s, id)
    ensures Restyled(s, id, color).doc == s.doc
    ensures Restyled(s, id, color).highlights == SplicedOut(s.highlights, id)
  {
    UnwrapAbsent(s.doc, id);
  }

  /** What restoring each entry in turn leaves of the document, and the ids of the entries
      whose restore failed, in order. */
  function RestoreAll(doc: Node, es: seq<Entry>): (Node, seq<string>)
    decreases |es|
  {
    if es == [] then (doc, [])
    else
      var m := Restored(doc, es[0]);
      var (d, failed) := RestoreAll(AfterRestore(doc, es[0]), es[1..]);
      (d, if m.Some? then failed else [es[0].id] + failed)
  }

  /** One step of restoring in turn: the entry's restore, then the rest on the document it
      leaves. */
  lemma RestoreAllStep(doc: Node, es: seq<Entry>, mark: Option<Cursor>, doc': Node)
    requires es != [] && mark == Restored(doc, es[0]) && doc' == AfterRestore(doc, es[0])
    ensures RestoreAll(doc, es).0 == RestoreAll(doc', es[1..]).0
    ensures RestoreAll(doc, es).1 == (if mark.Some? then [] else [es[0].id]) + RestoreAll(doc', es[1..]).1
  {
  }

  /** Adding an element, or nothing, at the end of the part already done of a list. */
  lemma AppendStep<T>(done: seq<T>, skip: bool, x: T, rest: seq<T>)
    ensures done + ((if skip then [] else [x]) + rest) == (if skip then done else done + [x]) + rest
  {
    if skip {
      assert [] + rest == rest;
    }
  }

  /** The entries whose restore succeeds when each is restored in turn, in order. */
  function Survivors(doc: Node, es: seq<Entry>): seq<Entry>
    decreases |es|
  {
    if es == [] then []
    else
      var rest := Survivors(AfterRestore(doc, es[0]), es[1..]);
      if Restored(doc, es[0]).Some? then [es[0]] + rest else rest
  }

  /** The prune loop of `loadSavedHighlights()`: take the stored list when there is one,
      restore every entry, and when some failed keep only the entries whose id did not fail
      and save. */
  function Loaded(s: Snapshot): Snapshot
  {
    var es := if s.stored.Some? then s.stored.value else s.highlights;
    var restored := RestoreAll(s.doc, es);
    if restored.1 == [] then Snapshot(restored.0, es, s.stored)
    else Saved(Snapshot(restored.0, Prune(es, restored.1), s.stored))
  }

  /** Every failed id is the id of one of the entries. */
  lemma {:induction false} FailedIds(doc: Node, es: seq<Entry>)
    ensures forall x :: x in RestoreAll(doc, es).1 ==> x in Ids(es)
    decreases |es|
  {
    if es != [] {
      FailedIds(AfterRestore(doc, es[0]), es[1..]);
      assert Ids(es) == [es[0].id] + Ids(es[1..]);
    }
  }

  /** With distinct ids, pruning the failed ids keeps exactly the entries whose restore
      succeeded, in their stored order. */
  lemma {:induction false} PruneFailed(doc: Node, es: seq<Entry>)
    requires UniqueIds(es)
    ensures Prune(es, RestoreAll(doc, es).1) == Survivors(doc, es)
    decreases |es|
  {
    if es != [] {
      var mark, doc' := Restored(doc, es[0]), AfterRestore(doc, es[0]);
      PruneFailed(doc', es[1..]);
      FailedIds(doc', es[1..]);
      RestoreAllStep(doc, es, mark, doc');
      PruneStep(es, mark.Some?, RestoreAll(doc', es[1..]).1, Survivors(doc', es[1..]));
    }
  }

  /** One step of `PruneFailed`, on the list alone: pruning the first entry's id when its
      restore failed drops it and nothing else. */
  lemma PruneStep(es: seq<Entry>, ok: bool, failed: seq<string>, kept: seq<Entry>)
    requires es != [] && UniqueIds(es)
    requires Prune(es[1..], failed) == kept
    requires forall x :: x in failed ==> x in Ids(es[1..])
    ensures Prune(es, (if ok then [] else [es[0].id]) + failed) == (if ok then [es[0]] else []) + kept
  {
    var rest := es[1..];
    assert es[0].id !in Ids(rest) by {
      assert forall j :: 0 <= j < |rest| ==> rest[j].id == es[j + 1].id;
    }
    if ok {
      assert [] + failed == failed;
      assert es[0].id !in failed;
      assert Prune(es, failed) == [es[0]] + Prune(rest, failed);
    } else {
      PruneIgnores(rest, es[0].id, failed);
      assert Prune(es, [es[0].id] + failed) == Prune(rest, [es[0].id] + failed);
    }
  }

  /** After loading, the list holds exactly the stored entries whose restore succeeded, in
      their original order, and it is saved whenever that dropped any. */
  lemma LoadKeepsRestored(s: Snapshot)
    requires var es := if s.stored.Some? then s.stored.value else s.highlights; UniqueIds(es)
    ensures var es := if s.stored.Some? then s.stored.value else s.highlights;
      && Loaded(s).highlights == Survivors(s.doc, es)
      && Loaded(s).doc == RestoreAll(s.doc, es).0
      && (Loaded(s).highlights != es ==> Loaded(s).stored == Some(Loaded(s).highlights))
  {
    var es := if s.stored.Some? then s.stored.value else s.highlights;
    PruneFailed(s.doc, es);
    if RestoreAll(s.doc, es).1 == [] {
      PruneNothing(es, []);
    }
  }

  // ---------------------------------------------------------------------------------------
  // What the operations keep: distinct ids, at most one mark per id.
  // ---------------------------------------------------------------------------------------

  /** The entries' ids are distinct and the document holds at most one element carrying
      each of them. */
  predicate Consistent(s: Snapshot)
  {
    UniqueIds(s.highlights) && forall x :: x in Ids(s.highlights) ==> MarksBelow(s.doc, x) <= 1
  }

  /** A successful restore adds exactly one element carrying the entry's id below the
      document and none carrying any other id. */
  lemma RestoreMarks(doc: Node, e: Entry, x: string)
    ensures MarksBelow(AfterRestore(doc, e), x) ==
      MarksBelow(doc, x) + (if Restored(doc, e).Some? && x == e.id then 1 else 0)
  {
    if Restored(doc, e).Some? {
      var r := Deserialized(doc, e).value;
      RestoreSpec(doc, e);
      DeserializedValid(doc, e);
      RangeRoot(doc, r);
      WrapMarks(r, e.color, e.id, x);
    }
  }

  /** The mark `Located` gives is an element carrying the entry's id below the document it
      returns, which holds one element carrying the id more than before exactly when the
      mark had to be restored, and as many carrying any other id. */
  lemma LocatedMarks(doc: Node, e: Entry, x: string)
    ensures var (mark, d) := Located(doc, e);
      && (mark.Some? ==>
            mark.value.focus.Elem? && mark.value.up != [] && Root(mark.value) == d && IsMark(mark.value.focus, e.id))
      && MarksBelow(d, x) == MarksBelow(doc, x) + (if x == e.id && MarksBelow(doc, e.id) == 0 && mark.Some? then 1 else 0)
  {
    RestoreMarks(doc, e, x);
    if QuerySelector(doc, e.id).None? && Restored(doc, e).Some? {
      RestoreSpec(doc, e);
      WrapSpec(Deserialized(doc, e).value, e.color, e.id);
    }
  }

  /** Appending an entry with a new id keeps the ids distinct. */
  lemma AppendUnique(hs: seq<Entry>, e: Entry)
    requires UniqueIds(hs) && e.id !in Ids(hs)
    ensures UniqueIds(hs + [e]) && Ids(hs + [e]) == Ids(hs) + [e.id]
  {
    var es := hs + [e];
    forall i, j | 0 <= i < j < |es|
      ensures es[i].id != es[j].id
    {
      if j == |hs| {
        assert Ids(hs)[i] == hs[i].id;
      }
    }
  }

  /** Changing one entry's color keeps every id where it was. */
  lemma RecolorIds(hs: seq<Entry>, i: nat, color: string)
    requires i < |hs|
    ensures Ids(hs[i := hs[i].(color := color)]) == Ids(hs)
    ensures UniqueIds(hs) ==> UniqueIds(hs[i := hs[i].(color := color)])
  {
    var hs' := hs[i := hs[i].(color := color)];
    assert forall j :: 0 <= j < |hs| ==> hs'[j].id == hs[j].id;
  }

  /** `applyHighlight` with an id that neither an entry nor an element carries yet, as
      `createId` provides, keeps the snapshot consistent. */
  lemma ApplyKeepsConsistent(s: Snapshot, savedRange: Option<Range>, color: string, id: string, now: int)
    requires Consistent(s) && id !in Ids(s.highlights) && MarksBelow(s.doc, id) == 0
    requires savedRange.Some? ==> ValidRange(s.doc, savedRange.value)
    ensures Consistent(Applied(s, savedRange, color, id, now))
  {
    var s' := Applied(s, savedRange, color, id, now);
    if s' != s {
      var r := savedRange.value;
      ApplyAppends(s, r, color, id, now);
      RangeRoot(s.doc, r);
      AppendUnique(s.highlights, AppliedEntry(r, color, id, now));
      forall x | x in Ids(s'.highlights)
        ensures MarksBelow(s'.doc, x) <= 1
      {
        WrapMarks(r, color, id, x);
      }
    }
  }

  /** `eraseHighlight` keeps the snapshot consistent. */
  lemma EraseKeepsConsistent(s: Snapshot, id: string)
    requires Consistent(s)
    ensures Consistent(Erased(s, id))
  {
    if IndexOf(s.highlights, id) >= 0 {
      var s' := Erased(s, id);
      EraseKeepsUnique(s, id);
      EraseRemovesEntry(s, id);
      PruneIds(s.highlights, [id]);
      forall x | x in Ids(s'.highlights)
        ensures MarksBelow(s'.doc, x) <= 1
      {
        UnwrapMarksBelow(s.doc, id, x);
      }
    }
  }

  /** `restyleHighlight` keeps the snapshot consistent, whether the mark was present,
      restored, or missing for good. */
  lemma RestyleKeepsConsistent(s: Snapshot, id: string, color: string)
    requires Consistent(s)
    ensures Consistent(Restyled(s, id, color))
  {
    var i := IndexOf(s.highlights, id);
    if i >= 0 {
      var e := s.highlights[i];
      var (mark, d) := Located(s.doc, e);
      if mark.None? {
        EraseKeepsConsistent(s, id);
      } else {
        var s' := Restyled(s, id, color);
        LocatedMarks(s.doc, e, id);
        RecolorIds(s.highlights, i, color);
        forall x | x in Ids(s'.highlights)
          ensures MarksBelow(s'.doc, x) <= 1
        {
          LocatedMarks(s.doc, e, x);
          RecolorMarks(mark.value, color, x);
        }
      }
    }
  }

  /** Restoring entries in turn never puts a second element carrying an id in the
      document. */
  lemma {:induction false} RestoreAllMarks(doc: Node, es: seq<Entry>, x: string)
    requires MarksBelow(doc, x) <= 1
    ensures MarksBelow(RestoreAll(doc, es).0, x) <= 1
    decreases |es|
  {
    if es != [] {
      RestoreMarks(doc, es[0], x);
      RestoreSpec(doc, es[0]);
      RestoreAllMarks(AfterRestore(doc, es[0]), es[1..], x);
    }
  }

  /** Loading keeps consistent a list that was consistent with the document it is loaded
      into. */
  lemma LoadKeepsConsistent(s: Snapshot)
    requires var es := if s.stored.Some? then s.stored.value else s.highlights;
      Consistent(Snapshot(s.doc, es, s.stored))
    ensures Consistent(Loaded(s))
  {
    var es := if s.stored.Some? then s.stored.value else s.highlights;
    var failed := RestoreAll(s.doc, es).1;
    PruneUnique(es, failed);
    PruneIds(es, failed);
    forall x | x in Ids(Loaded(s).highlights)
      ensures MarksBelow(Loaded(s).doc, x) <= 1
    {
      RestoreAllMarks(s.doc, es, x);
    }
  }

  /** One item of `collectHighlightsPayload()`'s result; `htmlContent` holds the nodes the
      HTML stands for. */
  datatype ExportItem = ExportItem(id: string, color: string, textSnippet: string, createdAt: int, htmlContent: seq<Node>)

  /** The content exported for an entry without a mark: its snippet as text, or nothing. */
  function Fallback(snippet: string): (ns: seq<Node>)
    ensures TextOfAll(ns) == snippet
  {
    if snippet != "" then [Text(snippet)] else []
  }

  /** One step of `collectHighlightsPayload()`: the entry's mark, restored if it is missing,
      gives the content; without one the snippet does. */
  function PayloadItem(doc: Node, e: Entry): (Node, ExportItem)
  {
    var (mark, doc') := Located(doc, e);
    var html := if mark.Some? then MarkContent(mark.value.focus) else Fallback(e.textSnippet);
    (doc', ExportItem(e.id, e.color, e.textSnippet, e.createdAt, html))
  }

  /** `mark.innerHTML`, as nodes. */
  function MarkContent(n: Node): seq<Node>
  {
    if n.Elem? then n.kids else []
  }

  /** The document after, and the items of, `collectHighlightsPayload()` over `es`. */
  function Payload(doc: Node, es: seq<Entry>): (Node, seq<ExportItem>)
    decreases |es|
  {
    if es == [] then (doc, [])
    else
      var (d, item) := PayloadItem(doc, es[0]);
      var (d', items) := Payload(d, es[1..]);
      (d', [item] + items)
  }

  /** One step of `Payload`: the first entry's item, then the rest on the document it
      leaves. */
  lemma PayloadStep(doc: Node, es: seq<Entry>, doc': Node, item: ExportItem)
    requires es != [] && (doc', item) == PayloadItem(doc, es[0])
    ensures Payload(doc, es).0 == Payload(doc', es[1..]).0
    ensures Payload(doc, es).1 == [item] + Payload(doc', es[1..]).1
  {
  }

  /** The payload has one item per entry, in the list's order, carrying the entry's id,
      color, snippet and time. */
  lemma {:induction false} PayloadOrder(doc: Node, es: seq<Entry>)
    ensures var items := Payload(doc, es).1;
      && |items| == |es|
      && forall i :: 0 <= i < |es| ==>
        && items[i].id == es[i].id && items[i].color == es[i].color
        && items[i].textSnippet == es[i].textSnippet && items[i].createdAt == es[i].createdAt
    decreases |es|
  {
    if es != [] {
      PayloadOrder(PayloadItem(doc, es[0]).0, es[1..]);
    }
  }

  /** An item's content is its mark's content when the mark is there; otherwise the mark is
      restored, and when that fails too the content holds exactly the snippet's text. */
  lemma PayloadFallback(doc: Node, e: Entry)
    ensures var (d, item) := PayloadItem(doc, e);
      && (QuerySelector(doc, e.id).Some? ==> d == doc && item.htmlContent == QuerySelector(doc, e.id).value.focus.kids)
      && (QuerySelector(doc, e.id).None? && Restored(doc, e).None? ==>
            d == doc && TextOfAll(item.htmlContent) == e.textSnippet)
      && (Restored(doc, e).Some? ==>
            TextContent(d) == TextContent(doc) && TextOfAll(item.htmlContent) == TextContent(Restored(doc, e).value.focus))
  {
    RestoreSpec(doc, e);
  }

  // ---------------------------------------------------------------------------------------
  // The page.
  // ---------------------------------------------------------------------------------------

  /** The highlighter running on one page: the document, `state.highlights`, and what the
      storage adapter last holds for the page's key. */
  class Page {
    var doc: Node
    var highlights: seq<Entry>
    var stored: Option<seq<Entry>>

    function State(): Snapshot
      reads this
    {
      Snapshot(doc, highlights, stored)
    }

    /** A page as it loads: the document as served, no highlights yet, and whatever the
        storage holds for it. */
    constructor(doc: Node, stored: Option<seq<Entry>>)
      ensures State() == Snapshot(doc, [], stored)
    {
      this.doc := doc;
      this.highlights := [];
      this.stored := stored;
    }

    method SaveHighlights()
      modifies this
      ensures State() == Saved(old(State()))
    {
      stored := Some(highlights);
    }

    method RestoreHighlight(entry: Entry) returns (mark: Option<Cursor>)
      modifies this
      ensures mark == Restored(old(doc), entry)
      ensures State() == old(State()).(doc := AfterRestore(old(doc), entry))
    {
      if QuerySelector(doc, entry.id).Some? {
        return None;
      }
      var range := DeserializeRange(doc, entry);
      if range.None? {
        return None;
      }
      mark := Wrap(range.value, entry.color, entry.id);
      if mark.Some? {
        doc := Root(mark.value);
      }
    }

    /** The mark of an entry: `querySelector` by its id, and `restoreHighlight(entry)` when
        that finds nothing. */
    method LocateMark(entry: Entry) returns (mark: Option<Cursor>)
      modifies this
      ensures (mark, doc) == Located(old(doc), entry)
      ensures highlights == old(highlights) && stored == old(stored)
    {
      mark := QuerySelector(doc, entry.id);
      if mark.None? {
        mark := RestoreHighlight(entry);
      }
    }

    method ApplyHighlight(savedRange: Option<Range>, color: string, id: string, now: int)
      modifies this
      ensures State() == Applied(old(State()), savedRange, color, id, now)
    {
      if savedRange.None? || Collapsed(savedRange.value) {
        return;
      }
      var range := savedRange.value;
      var entry := SerializeRange(range, color, id, now);
      var mark := Wrap(range, color, id);
      if mark.None? {
        return;
      }
      var text := TextContent(mark.value.focus);
      entry := entry.(textSnippet := GetSnippet(if text != "" then text else entry.textSnippet));
      doc := Root(mark.value);
      highlights := highlights + [entry];
      SaveHighlights();
    }

    method EraseHighlight(id: string)
      modifies this
      ensures State() == Erased(old(State()), id)
    {
      var index := IndexOf(highlights, id);
      if index == -1 {
        return;
      }
      doc := RemoveMarkFromDom(doc, id);
      highlights := highlights[..index] + highlights[index + 1..];
      SaveHighlights();
    }

    method ClearAllHighlights()
      modifies this
      ensures State() == Cleared(old(State()))
    {
      if |highlights| == 0 {
        return;
      }
      var ids := Ids(highlights);
      var k := 0;
      while k < |ids|
        invariant 0 <= k <= |ids|
        invariant UnwrapAll(doc, ids[k..]) == UnwrapAll(old(doc), ids)
        invariant highlights == old(highlights) && stored == old(stored)
      {
        assert ids[k..][1..] == ids[k + 1..];
        doc := RemoveMarkFromDom(doc, ids[k]);
        k := k + 1;
      }
      highlights := [];
      SaveHighlights();
    }

    method RestyleHighlight(id: string, color: string)
      modifies this
      ensures State() == Restyled(old(State()), id, color)
    {
      var index := IndexOf(highlights, id);
      if index == -1 {
        return;
      }
      var entry := highlights[index];
      var mark := LocateMark(entry);
      if mark.None? {
        assert State() == old(State());
        EraseHighlight(id);
        return;
      }
      assert State().highlights == old(highlights) && State().stored == old(stored);
      doc := Replace(mark.value, ApplyColorToMark(mark.value.focus, color));
      highlights := highlights[index := entry.(color := color)];
      SaveHighlights();
    }

    method LoadSavedHighlights()
      modifies this
      ensures State() == Loaded(old(State()))
    {
      if stored.Some? {
        highlights := stored.value;
      }
      var es := highlights;
      var failedIds := RestoreEach(es);
      if |failedIds| > 0 {
        highlights := Prune(es, failedIds);
        SaveHighlights();
      }
    }

    /** The loop of `loadSavedHighlights()`: restores the entries in turn and returns the
        ids of those whose restore failed, in order. */
    method RestoreEach(es: seq<Entry>) returns (failedIds: seq<string>)
      modifies this
      ensures (doc, failedIds) == RestoreAll(old(doc), es)
      ensures highlights == old(highlights) && stored == old(stored)
    {
      ghost var restored := RestoreAll(doc, es);
      failedIds := [];
      var k := 0;
      assert es[k..] == es;
      while k < |es|
        invariant 0 <= k <= |es|
        invariant highlights == old(highlights) && stored == old(stored)
        invariant restored.0 == RestoreAll(doc, es[k..]).0
        invariant restored.1 == failedIds + RestoreAll(doc, es[k..]).1
      {
        assert es[k..][1..] == es[k + 1..];
        ghost var before, failedBefore := doc, failedIds;
        var mark := RestoreHighlight(es[k]);
        RestoreAllStep(before, es[k..], mark, doc);
        if mark.None? {
          failedIds := failedIds + [es[k].id];
        }
        AppendStep(failedBefore, mark.Some?, es[k].id, RestoreAll(doc, es[k + 1..]).1);
        k := k + 1;
      }
      assert RestoreAll(doc, es[k..]) == (doc, []);
      assert failedIds + [] == failedIds;
    }

    method CollectHighlightsPayload() returns (results: seq<ExportItem>)
      modifies this
      ensures results == Payload(old(doc), old(highlights)).1
      ensures State() == old(State()).(doc := Payload(old(doc), old(highlights)).0)
    {
      var es := highlights;
      ghost var payload := Payload(doc, es);
      results := [];
      var k := 0;
      assert es[k..] == es;
      while k < |es|
        invariant 0 <= k <= |es|
        invariant highlights == es && stored == old(stored)
        invariant payload.0 == Payload(doc, es[k..]).0
        invariant payload.1 == results + Payload(doc, es[k..]).1
      {
        assert es[k..][1..] == es[k + 1..];
        ghost var before := doc;
        var item := ExportEntry(es[k]);
        PayloadStep(before, es[k..], doc, item);
        AppendStep(results, false, item, Payload(doc, es[k + 1..]).1);
        results := results + [item];
        k := k + 1;
      }
      assert Payload(doc, es[k..]) == (doc, []);
      assert results + [] == results;
    }

    /** One turn of the loop of `collectHighlightsPayload()`: the item of one entry, from
        its mark, restored when it is missing, or from its snippet. */
    method ExportEntry(entry: Entry) returns (item: ExportItem)
      modifies this
      ensures (doc, item) == PayloadItem(old(doc), entry)
      ensures highlights == old(highlights) && stored == old(stored)
    {
      var mark := LocateMark(entry);
      var html := if mark.Some? then MarkContent(mark.value.focus) else Fallback(entry.textSnippet);
      item := ExportItem(entry.id, entry.color, entry.textSnippet, entry.createdAt, html);
    }
  }
}
