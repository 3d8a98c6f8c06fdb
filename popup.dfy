/** The popup of the extension: the list of a tab's highlights, newest first, and the
    Markdown export of the highlights collected from the page, oldest first. */
module Popup {
  import opened Wrappers
  import opened TextUtil
  import opened Sorting
  import Markdown
  import Highlights

  type Entry = Highlights.Entry
  type ExportItem = Highlights.ExportItem

  // ---------------------------------------------------------------------------------------
  // The list.
  // ---------------------------------------------------------------------------------------

  /** One row of the list: the entry it focuses or deletes, the colour of its dot and its
      text. */
  datatype Row = Row(id: string, dot: string, text: string)

  const DefaultDot := "#888"
  const FallbackText := "Unknown selection"

  /** `b.createdAt - a.createdAt` orders by this rank: the newest first. */
  function NewestRank(e: Entry): int
  {
    -e.createdAt
  }

  /** The entries as the list shows them. */
  function NewestFirst(es: seq<Entry>): seq<Entry>
  {
    SortBy(es, NewestRank)
  }

  /** The row of one entry: its colour, or grey when it has none, and its snippet, or a
      placeholder when it is empty. */
  function RowOf(e: Entry): (r: Row)
    ensures r.id == e.id && r.dot != "" && r.text != ""
    ensures e.color != "" ==> r.dot == e.color
    ensures e.textSnippet != "" ==> r.text == e.textSnippet
  {
    Row(e.id,
        if e.color != "" then e.color else DefaultDot,
        if e.textSnippet != "" then e.textSnippet else FallbackText)
  }

  /** The list holds every entry once. */
  lemma NewestFirstPermutes(es: seq<Entry>)
    ensures multiset(NewestFirst(es)) == multiset(es)
    ensures |NewestFirst(es)| == |es|
  {
    SortPermutes(es, NewestRank);
    assert |NewestFirst(es)| == |multiset(NewestFirst(es))|;
  }

  /** The list is newest first. */
  lemma NewestFirstDescending(es: seq<Entry>)
    ensures forall i, j :: 0 <= i < j < |NewestFirst(es)| ==>
      NewestFirst(es)[i].createdAt >= NewestFirst(es)[j].createdAt
  {
    SortSorted(es, NewestRank);
    var sorted := NewestFirst(es);
    forall i, j | 0 <= i < j < |sorted|
      ensures sorted[i].createdAt >= sorted[j].createdAt
    {
      assert NewestRank(sorted[i]) <= NewestRank(sorted[j]);
    }
  }

  /** Entries created at the same time keep the order they were saved in. */
  lemma NewestFirstStable(es: seq<Entry>, v: int)
    ensures OfRank(NewestFirst(es), NewestRank, v) == OfRank(es, NewestRank, v)
  {
    SortStable(es, NewestRank, v);
  }

  /** The rows of the list, one per entry, newest first. */
  function Rows(es: seq<Entry>): (rows: seq<Row>)
    ensures |rows| == |NewestFirst(es)| == |es|
    ensures forall i :: 0 <= i < |rows| ==> rows[i] == RowOf(NewestFirst(es)[i])
  {
    var sorted := NewestFirst(es);
    NewestFirstPermutes(es);
    seq(|sorted|, i requires 0 <= i < |sorted| => RowOf(sorted[i]))
  }

  // ---------------------------------------------------------------------------------------
  // The Markdown export.
  // ---------------------------------------------------------------------------------------

  const Untitled := "Untitled"
  const UnknownUrl := "Unknown"
  const NoText := "_No text_"

  /** `a.createdAt - b.createdAt` orders by this rank: the oldest first. */
  function OldestRank(item: ExportItem): int
  {
    item.createdAt
  }

  /** The items in the order the export lists them. */
  function OldestFirst(items: seq<ExportItem>): seq<ExportItem>
  {
    SortBy(items, OldestRank)
  }

  /** The title, address and export time the document opens with. */
  function Header(title: string, url: string, exportedAt: string): seq<string>
  {
    [ "# Highlights for " + (if title != "" then title else Untitled),
      "",
      "- URL: " + (if url != "" then url else UnknownUrl),
      "- Exported: " + exportedAt,
      "" ]
  }

  /** The colour after a section's heading, in backquotes, when the item has one. */
  function ColorTag(color: string): string
  {
    if color != "" then " `" + color + "`" else ""
  }

  /** The Markdown of an item's HTML content when it has some, its snippet otherwise. */
  function Body(item: ExportItem): string
  {
    if item.htmlContent != [] then Markdown.HtmlToMd(item.htmlContent) else item.textSnippet
  }

  /** The four lines of the section numbered `n`: its heading, a blank line, its body or a
      placeholder when the body is empty, a blank line. */
  function Section(item: ExportItem, n: nat): (lines: seq<string>)
    ensures |lines| == 4 && lines[1] == lines[3] == "" && lines[2] != ""
  {
    [ "## Highlight " + NatToString(n) + ColorTag(item.color),
      "",
      if Body(item) != "" then Body(item) else NoText,
      "" ]
  }

  /** The blocks of lines `block` gives the items, numbered from 1 in the order given. */
  function Numbered<T>(items: seq<T>, block: (T, nat) -> seq<string>): seq<string>
    decreases |items|
  {
    if items == [] then []
    else Numbered(items[..|items| - 1], block) + block(items[|items| - 1], |items|)
  }

  /** The sections of the items, numbered from 1 in the order given. */
  function Sections(items: seq<ExportItem>): seq<string>
  {
    Numbered(items, Section)
  }

  /** `lines.join('\n').trim() + '\n'`. */
  function Finish(lines: seq<string>): string
  {
    Trim(Join(lines, "\n")) + "\n"
  }

  /** The document: the header and the sections of the items in the order given. */
  function Document(title: string, url: string, exportedAt: string, items: seq<ExportItem>): string
  {
    Finish(Header(title, url, exportedAt) + Sections(items))
  }

  /** Adding an item adds its block, numbered after the others. */
  lemma NumberedStep<T>(items: seq<T>, item: T, block: (T, nat) -> seq<string>)
    ensures Numbered(items + [item], block) == Numbered(items, block) + block(item, |items| + 1)
  {
    assert (items + [item])[..|items|] == items;
  }

  /** With blocks of four lines, four lines per item. */
  lemma {:induction false} NumberedLength<T>(items: seq<T>, block: (T, nat) -> seq<string>)
    requires forall x, n :: |block(x, n)| == 4
    ensures |Numbered(items, block)| == 4 * |items|
    decreases |items|
  {
    if items != [] {
      NumberedLength(items[..|items| - 1], block);
    }
  }

  /** With blocks of four lines, the item at `k` gets the lines from `4 * k` on, numbered
      `k + 1`. */
  lemma {:induction false} NumberedLayout<T>(items: seq<T>, block: (T, nat) -> seq<string>, k: nat)
    requires forall x, n :: |block(x, n)| == 4
    requires k < |items|
    ensures 4 * k + 4 <= |Numbered(items, block)|
    ensures Numbered(items, block)[4 * k..4 * k + 4] == block(items[k], k + 1)
    decreases |items|
  {
    var init := items[..|items| - 1];
    var s, b := Numbered(init, block), block(items[|items| - 1], |items|);
    NumberedLength(init, block);
    assert Numbered(items, block) == s + b;
    if k < |init| {
      NumberedLayout(init, block, k);
      assert items[k] == init[k];
      assert (s + b)[4 * k..4 * k + 4] == s[4 * k..4 * k + 4];
    } else {
      assert (s + b)[|s|..|s| + 4] == b;
    }
  }

  /** Four lines per item, and the item at `k` gets the section numbered `k + 1`: its
      heading with its colour, a blank line, its body or the placeholder, a blank line. */
  lemma SectionsLayout(items: seq<ExportItem>, k: nat)
    requires k < |items|
    ensures |Sections(items)| == 4 * |items|
    ensures Sections(items)[4 * k..4 * k + 4] == Section(items[k], k + 1)
  {
    NumberedLength(items, Section);
    NumberedLayout(items, Section, k);
  }

  /** The export lists every collected item once, oldest first. */
  lemma ExportOldestFirst(items: seq<ExportItem>)
    ensures multiset(OldestFirst(items)) == multiset(items)
    ensures forall i, j :: 0 <= i < j < |OldestFirst(items)| ==>
      OldestFirst(items)[i].createdAt <= OldestFirst(items)[j].createdAt
  {
    SortPermutes(items, OldestRank);
    SortSorted(items, OldestRank);
  }

  /** Items created at the same time keep the order the page gave them. */
  lemma ExportStable(items: seq<ExportItem>, v: int)
    ensures OfRank(OldestFirst(items), OldestRank, v) == OfRank(items, OldestRank, v)
  {
    SortStable(items, OldestRank, v);
  }

  /** A join starts with the first part when that part is not empty. */
  lemma JoinHead(parts: seq<string>, sep: string)
    requires parts != [] && parts[0] != ""
    ensures Join(parts, sep) != "" && Join(parts, sep)[0] == parts[0][0]
  {
  }

  /** Finished lines whose first line starts with a character that is not whitespace
      start with that character, end with exactly one newline after a character that is not
      whitespace, and keep every character of the joined lines that is not whitespace, in
      order. */
  lemma FinishShape(lines: seq<string>)
    requires lines != [] && lines[0] != "" && !IsSpace(lines[0][0])
    ensures var md := Finish(lines);
      && |md| >= 2 && md[0] == lines[0][0]
      && md[|md| - 1] == '\n' && !IsSpace(md[|md| - 2])
      && Without(md, Whitespace) == Without(Join(lines, "\n"), Whitespace)
  {
    var joined := Join(lines, "\n");
    JoinHead(lines, "\n");
    var t := Trim(joined);
    assert LeadingRun(joined, Whitespace) == 0;
    assert t[0] == joined[0];
    TrimKeeps(joined);
    WithoutAppend(t, "\n", Whitespace);
    assert Without("\n", Whitespace) == [];
  }

  /** The document starts with the `#` of its title, ends with exactly one newline after a
      character that is not whitespace, and keeps every character of its lines that is not
      whitespace, in order. */
  lemma DocumentShape(title: string, url: string, exportedAt: string, items: seq<ExportItem>)
    ensures var md := Document(title, url, exportedAt, items);
      && |md| >= 2 && md[0] == '#'
      && md[|md| - 1] == '\n' && !IsSpace(md[|md| - 2])
      && Without(md, Whitespace) == Without(Join(Header(title, url, exportedAt) + Sections(items), "\n"), Whitespace)
  {
    var header := Header(title, url, exportedAt);
    HeaderFirst(title, url, exportedAt);
    var lines := header + Sections(items);
    assert lines[0] == header[0];
    FinishShape(lines);
  }

  /** The header's first line is the title's heading. */
  lemma HeaderFirst(title: string, url: string, exportedAt: string)
    ensures var h := Header(title, url, exportedAt); h != [] && h[0] != "" && h[0][0] == '#'
  {
  }

  /** The list and the export order the same three entries, created at 5, 1 and 3, in
      opposite directions: 5, 3, 1 on the list and 1, 3, 5 in the file. */
  lemma OppositeOrders(a: Entry, b: Entry, c: Entry)
    requires a.createdAt == 5 && b.createdAt == 1 && c.createdAt == 3
    ensures NewestFirst([a, b, c]) == [a, c, b]
  {
    assert [a][..0] == [] && [a, b][..1] == [a] && [a, b, c][..2] == [a, b];
    assert SortBy([a], NewestRank) == Insert([], a, NewestRank) == [a];
    assert SortBy([a, b], NewestRank) == Insert([a], b, NewestRank) == [a, b];
    assert Insert([a], c, NewestRank) == [a, c];
    assert Insert([a, b], c, NewestRank) == Insert([a], c, NewestRank) + [b];
  }

  lemma OppositeOrdersExport(a: ExportItem, b: ExportItem, c: ExportItem)
    requires a.createdAt == 5 && b.createdAt == 1 && c.createdAt == 3
    ensures OldestFirst([a, b, c]) == [b, c, a]
  {
    assert [a][..0] == [] && [a, b][..1] == [a] && [a, b, c][..2] == [a, b] && [b, a][..1] == [b];
    assert SortBy([a], OldestRank) == Insert([], a, OldestRank) == [a];
    assert Insert([], b, OldestRank) == [b];
    assert Insert([a], b, OldestRank) == Insert([], b, OldestRank) + [a];
    assert SortBy([a, b], OldestRank) == Insert([a], b, OldestRank) == [b, a];
    assert Insert([b], c, OldestRank) == [b, c];
    assert Insert([b, a], c, OldestRank) == Insert([b], c, OldestRank) + [a];
  }

  // ---------------------------------------------------------------------------------------
  // The popup.
  // ---------------------------------------------------------------------------------------

  /** The popup's state: the highlights of the active tab, its title and address, and what
      the list and the status line show. */
  class PopupController {
    var highlights: seq<Entry>
    var tabTitle: string
    var tabUrl: string
    var list: seq<Row>
    var listHidden: bool
    var buttonsDisabled: bool
    var status: Option<string>

    constructor (highlights: seq<Entry>, tabTitle: string, tabUrl: string)
      ensures this.highlights == highlights && this.tabTitle == tabTitle && this.tabUrl == tabUrl
      ensures list == [] && !listHidden && !buttonsDisabled && status == None
    {
      this.highlights := highlights;
      this.tabTitle := tabTitle;
      this.tabUrl := tabUrl;
      list := [];
      listHidden := false;
      buttonsDisabled := false;
      status := None;
    }

    /** `renderList()`: the list shows the rows of the highlights, newest first, or is
        hidden with the empty-state message when there are none. */
    method RenderList()
      modifies this
      ensures highlights == old(highlights) && tabTitle == old(tabTitle) && tabUrl == old(tabUrl)
      ensures list == Rows(highlights)
      ensures listHidden == buttonsDisabled == (highlights == [])
      ensures status == if highlights == [] then Some("statusEmpty") else None
    {
      list := [];
      if |highlights| == 0 {
        status := Some("statusEmpty");
        buttonsDisabled := true;
        listHidden := true;
        return;
      }
      status := None;
      listHidden := false;
      buttonsDisabled := false;
      var hs := highlights;
      var sorted := new Entry[|hs|](i requires 0 <= i < |hs| => hs[i]);
      assert sorted[..] == hs;
      SortInPlace(sorted, NewestRank);
      list := RowsOf(sorted[..]);
      assert list == Rows(hs);
    }

    /** `buildMarkdown(items)`: sorts the items oldest first, in place, and returns the
        document listing them, stamped with the export time given. */
    method BuildMarkdown(items: array<ExportItem>, exportedAt: string) returns (md: string)
      modifies items
      ensures items[..] == OldestFirst(old(items[..]))
      ensures md == Document(tabTitle, tabUrl, exportedAt, items[..])
    {
      var lines := Header(tabTitle, tabUrl, exportedAt);
      SortInPlace(items, OldestRank);
      lines := PushBlocks(lines, items[..], Section);
      md := Finish(lines);
    }
  }

  /** `for (const entry of sorted)` in `renderList`: one row per entry, in order. */
  method RowsOf(sorted: seq<Entry>) returns (rows: seq<Row>)
    ensures |rows| == |sorted|
    ensures forall k :: 0 <= k < |sorted| ==> rows[k] == RowOf(sorted[k])
  {
    rows := [];
    var i := 0;
    while i < |sorted|
      invariant 0 <= i <= |sorted|
      invariant |rows| == i && forall k :: 0 <= k < i ==> rows[k] == RowOf(sorted[k])
    {
      rows := rows + [RowOf(sorted[i])];
      i := i + 1;
    }
  }

  /** `items.forEach((item, i) => lines.push(...block(item, i + 1)))`. */
  method PushBlocks<T>(lines: seq<string>, items: seq<T>, block: (T, nat) -> seq<string>) returns (r: seq<string>)
    ensures r == lines + Numbered(items, block)
  {
    r := lines;
    var i := 0;
    while i < |items|
      invariant 0 <= i <= |items|
      invariant r == lines + Numbered(items[..i], block)
    {
      assert items[..i + 1] == items[..i] + [items[i]];
      NumberedStep(items[..i], items[i], block);
      r := r + block(items[i], i + 1);
      i := i + 1;
    }
    assert items[..i] == items;
  }
}
