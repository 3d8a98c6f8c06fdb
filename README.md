# t-nati highlighter: a verified model of its core

The t-nati browser extension lets a reader highlight passages of a web page in colour.
A highlight is a `<mark>` element wrapped around the selected text. Each one is recorded
as an entry that holds:

- an id, a colour and a creation time;
- a short snippet of the text;
- the start and end of the range, each as a path of child indices from the document down
  to a node, plus an offset into that node.

The entries are saved per page. When the page is loaded again, the highlights are
restored from those paths. The popup lists a tab's highlights, newest first. It can also
export them as a Markdown file, oldest first, with each highlight's HTML converted to
Markdown.

The project models that core as values and as imperative Dafny:

- `Dom` (dom.dfy): the part of the DOM the highlighter relies on.
  - Nodes are values: text nodes and elements with a tag, attributes and children.
  - A zipper `Cursor` stands for a node reference that knows its ancestors.
  - It also covers `textContent`, `querySelector` by highlight id and `normalize()`.
- `PathCodec` (pathcodec.dfy): `getNodePath`, `resolveNodePath` and `clampOffset`.
- `MarkWrapper` (markwrapper.dfy):
  - `wrapRangeWithMark` covers `extractContents` with its text splits, and `insertNode`.
  - `removeMarkFromDom` covers the loop that moves the mark's children out, and
    `normalize()`.
  - `applyColorToMark`.
- `Highlights` (highlights.dfy):
  - `getSnippet`, `serializeRange` and `deserializeRange`.
  - The class `Page`, whose fields are the document, `state.highlights` and the stored
    list. Each store operation is a method that updates those fields in place. Every
    method is proved equal to a function on a `Snapshot` of the fields. The operations:
    - restore, apply, erase, clear and restyle;
    - the prune loop of `loadSavedHighlights`;
    - `collectHighlightsPayload`.
  - The properties are lemmas about those functions.
- `Sorting` (sorting.dfy): the stable `Array.prototype.sort` with a subtracting
  comparator.
  - It is specified by a stable insertion sort on sequences.
  - It is implemented in place on an array.
- `Markdown` (markdown.dfy): `htmlToMd` and `slugify`.
- `Popup` (popup.dfy):
  - the class `PopupController` with `renderList`'s rows and `buildMarkdown`;
  - the orders of the list and of the export, and the layout of the exported document.
- `TextUtil` (text.dfy): the JavaScript string operations used throughout:
  - `\s` and `trim`;
  - replacing runs of a character class;
  - `join`;
  - decimal rendering of numbers.
- `Wrappers` (wrappers.dfy): `Option`.

## Model

| member | source | states |
|---|---|---|
| PathCodec.GetNodePath | scripts/highlighter.js:595-608 | the loop climbing to the top returns exactly the node's path: the child index at every level from the root down |
| PathCodec.ResolveNodePath | scripts/highlighter.js:610-622 | the loop walking down from the document returns exactly `Resolve`: nothing for a non-array, nothing as soon as an index names no child |
| PathCodec.ResolveOfNodePath | scripts/highlighter.js:595-622 | resolving the path of any attached node gives back that node; the path has one index per level |
| PathCodec.NodePathOfResolve | scripts/highlighter.js:595-622 | the other direction: whatever a path resolves to has exactly that path and lies in that document |
| PathCodec.SamePathSameNode | scripts/highlighter.js:595-608 | two nodes of one document are the same exactly when their paths agree |
| PathCodec.FindMarkFirst | scripts/highlighter.js:410 | the search finds nothing exactly when the subtree has no mark path, and otherwise the element at the first of them |
| PathCodec.FindMarkBelowFirst | scripts/highlighter.js:410 | the search among the children from the given one on finds the element at the first of their mark paths |
| PathCodec.QuerySelectorFirst | scripts/highlighter.js:410 | `querySelector` finds nothing exactly when no element below the document carries the id; otherwise the element found is the first in tree order, before every other one carrying the id |
| PathCodec.MarkPathsLead | scripts/highlighter.js:410 | each mark path of a subtree leads to an element carrying the id |
| PathCodec.PathsFromLead | scripts/highlighter.js:410 | each mark path below the children from the given one on leads to an element carrying the id |
| PathCodec.PathsBelowLead | scripts/highlighter.js:410 | every path of a mark below the document resolves to an element carrying the id, and the paths are in strict tree order, so they list all such elements once each |
| PathCodec.ReplaceResolves | scripts/highlighter.js:321 | after a node is replaced, its old path resolves to the replacement |
| PathCodec.DescendFails | scripts/highlighter.js:610-622 | resolution fails if and only if some index names no child of the node reached so far (a text node has none) |
| PathCodec.DescendPath | scripts/highlighter.js:610-622 | a walk stays in the same tree and reaches the node whose path is the start's path plus the walk |
| PathCodec.ClampOffset | scripts/highlighter.js:624-630 | 0 without a node; otherwise within the node's length (characters of a text node, children of an element), equal to the offset when that is in range, and the closest in-range value to it |
| Dom.FindMark | scripts/highlighter.js:410 | the pre-order search finds an element carrying the id, in the same tree, exactly when the subtree holds one |
| Dom.QuerySelector | scripts/highlighter.js:410 | the lookup by `data-tenati-id` yields an element carrying the id strictly below the document, and nothing exactly when no element carries it |
| Dom.ReplaceMarks | scripts/highlighter.js:267 | replacing a node below the document changes the number of elements carrying an id by the difference between the new node's and the old node's |
| Dom.MarkPaths | scripts/highlighter.js:410 | one path per element carrying the id in a subtree, the subtree's own node first |
| Dom.PathsFrom | scripts/highlighter.js:410 | one path per element carrying the id below the children from the given one on, each starting with its child's index |
| Dom.PathsBelow | scripts/highlighter.js:410 | one path per element carrying the id strictly below the document |
| Dom.MarkPathsOrdered | scripts/highlighter.js:410 | the paths of a subtree's marks are strictly increasing in tree order (a node before its descendants, a child's subtree before its later siblings') |
| Dom.PathsFromOrdered | scripts/highlighter.js:410 | the paths of the marks below the children from the given one on are strictly increasing in tree order |
| Dom.UnderOrdered | scripts/highlighter.js:410 | putting one child index in front of every path keeps tree order |
| Dom.OrderedConcat | scripts/highlighter.js:410 | the paths under one child, followed by those under later children, are in tree order |
| Dom.MergeTexts | scripts/highlighter.js:419 | merging adjacent text runs among siblings keeps their text and never adds siblings |
| Dom.MergeTextsMerged | scripts/highlighter.js:419 | after merging, no text node is empty and no two are adjacent |
| Dom.Normalize | scripts/highlighter.js:419 | `normalize()` keeps the text, the tag and the attributes, and leaves every level of the subtree merged |
| Dom.NormalizeMarks | scripts/highlighter.js:419 | `normalize()` keeps every mark of every id |
| MarkWrapper.CutText | scripts/highlighter.js:255-269 | splitting the text node a boundary lies in keeps the parent's text, and the cut falls at the boundary's character position |
| MarkWrapper.SplitText | scripts/highlighter.js:255-269 | extracting the range leaves the text before the start, the range's text in the fragment, and the text after the end |
| MarkWrapper.SplitMarks | scripts/highlighter.js:255-269 | extracting and splitting adds no element and removes none |
| MarkWrapper.WrappedText | scripts/highlighter.js:255-269 | after wrapping, the new mark sits among the parent's children, holds exactly the range's text and carries the id and colour; the parent's text is unchanged |
| MarkWrapper.WrappedMarks | scripts/highlighter.js:255-269 | the wrapped parent holds exactly one more element carrying the id |
| MarkWrapper.WrapSpec | scripts/highlighter.js:255-269 | nothing for a blank range; otherwise the mark carries the id and colour and holds the range's former text, its parent stays in place with the same text, the document's text is unchanged, and the document holds one more mark with the id |
| MarkWrapper.WrapMarks | scripts/highlighter.js:255-269 | after wrapping, the document holds one more element carrying the new id and as many carrying any other id |
| MarkWrapper.ApplyColorToMark | scripts/highlighter.js:404-407 | the element gets the colour as its background in `style` and records it in `data-tenati-color`; its tag, children, every other attribute and the ids it carries are unchanged |
| MarkWrapper.RecolorMarks | scripts/highlighter.js:404-407 | colouring a mark in place keeps the number of elements carrying every id |
| MarkWrapper.MoveChildrenOut | scripts/highlighter.js:415-418 | moving the first child out in front of the mark while there is one, then removing the mark, puts the mark's children in its place |
| MarkWrapper.RemoveMarkFromDom | scripts/highlighter.js:409-420 | the document afterwards is `Unwrapped`: unchanged without a mark; otherwise the mark is replaced by its children and its parent is normalized |
| MarkWrapper.UnwrapAbsent | scripts/highlighter.js:409-420 | without an element carrying the id, the lookup finds nothing and the document is unchanged |
| MarkWrapper.UnwrapText | scripts/highlighter.js:409-420 | removing a mark keeps the document's text |
| MarkWrapper.UnwrapMarks | scripts/highlighter.js:409-420 | removing a mark leaves one element with the id fewer, and as many with any other id |
| MarkWrapper.UnwrapMarksBelow | scripts/highlighter.js:409-420 | the same count, taken over the whole document below its root |
| MarkWrapper.UnwrapKeepsRoot | scripts/highlighter.js:409-420 | the document element keeps its tag and attributes |
| MarkWrapper.UnwrapNormalizes | scripts/highlighter.js:419 | the node in the parent's place holds the parent's text with its text runs merged |
| MarkWrapper.WrapThenUnwrap | scripts/highlighter.js:255-269 | wrapping with a fresh id and then removing that mark gives a document with the same text and no element carrying the id |
| Highlights.NormalizeSpace | scripts/highlighter.js:636 | the normalized text is the words of the input (its maximal runs without whitespace) joined by single spaces; so it has single spaces only, no whitespace at either end, and every other character of the input in order |
| Highlights.GetSnippet | scripts/highlighter.js:632-638 | a snippet is at most 80 characters long |
| Highlights.SnippetShape | scripts/highlighter.js:632-638 | no edge whitespace and single spaces only; the words joined by single spaces when that has at most 80 characters, otherwise their first 77 characters and an ellipsis |
| Highlights.SerializeRange | scripts/highlighter.js:383-394 | the entry records the id, colour, both paths and offsets, the snippet of the range's text, and the time given |
| Highlights.DeserializeRange | scripts/highlighter.js:367-381 | the range built is `Deserialized`: nothing when a path does not resolve; otherwise the start and then the end are set at the resolved nodes, at the clamped offsets |
| Highlights.DeserializedValid | scripts/highlighter.js:367-381 | rebuilding fails exactly when a path does not resolve, and otherwise yields a range the DOM accepts on that document |
| Highlights.DeserializeRecorded | scripts/highlighter.js:367-381 | an entry recording a valid range's paths and offsets rebuilds exactly that range on the same document |
| Highlights.DeserializeSerialized | scripts/highlighter.js:367-394 | rebuilding a serialized valid range on the same document gives back the range |
| Highlights.IndexOf | scripts/highlighter.js:328 | `findIndex` gives the first entry with the id, or -1 exactly when there is none |
| Highlights.Prune | scripts/highlighter.js:224 | the filter keeps no entry whose id was pruned, and never grows the list |
| Highlights.PruneNothing | scripts/highlighter.js:224 | pruning ids that no entry carries changes nothing |
| Highlights.PruneIds | scripts/highlighter.js:224 | pruning keeps only ids that were already there |
| Highlights.PruneUnique | scripts/highlighter.js:224 | pruning keeps distinct ids distinct |
| Highlights.SpliceFirst | scripts/highlighter.js:327-339 | with distinct ids, splicing out the first entry with the id is filtering the id out |
| Highlights.EraseUnknown | scripts/highlighter.js:327-339 | erasing an id that no entry has changes nothing |
| Highlights.EraseRemovesEntry | scripts/highlighter.js:327-339 | with distinct ids, erasing removes exactly the entry with the id and keeps the others in order |
| Highlights.EraseKeepsUnique | scripts/highlighter.js:327-339 | after erasing, the ids stay distinct and the id is gone |
| Highlights.EraseKeepsText | scripts/highlighter.js:327-339 | erasing keeps the document's text and takes out exactly one mark with the id when there is an entry and a mark |
| Highlights.EraseIdempotent | scripts/highlighter.js:327-339 | with distinct ids, a second erase of the same id changes nothing |
| Highlights.UnwrapAllSpec | scripts/highlighter.js:341-350 | removing the marks of a list of ids keeps the text and removes one mark of an id per occurrence of that id, while any are left |
| Highlights.ClearRemovesAll | scripts/highlighter.js:341-350 | after clearing, no entry is left, an empty list is saved if there were entries, the text is kept, with distinct ids every former entry's single mark is gone, and distinct ids with single marks stay so |
| Highlights.RestoreSpec | scripts/highlighter.js:352-365 | a successful restore happens only without a mark with the id and with a range that resolves; it wraps exactly that range, keeps the text and yields a mark with the id; a failed restore leaves the document unchanged |
| Highlights.ApplyAppends | scripts/highlighter.js:230-253 | a successful apply wraps the saved range, appends the entry recorded from it and saves the list; the document keeps its text |
| Highlights.ApplyThenReload | scripts/highlighter.js:230-253 | restoring the entry that apply stored, on the document as it was before, rebuilds exactly the document apply produced |
| Highlights.RestyleSpec | scripts/highlighter.js:305-325 | restyling a present mark records the colour in its entry only, keeps every other entry, puts the colour and the background on the mark at the same place, and keeps the text and the number of marks of every id |
| Highlights.RestyleRestores | scripts/highlighter.js:305-325 | restyling an entry whose mark is missing but can be restored wraps the restored range in a mark with the new colour and background at the restored place, records the colour in that entry only, saves the list, keeps the text, and leaves exactly one element carrying the id and as many carrying any other id |
| Highlights.RecolorRestored | scripts/highlighter.js:352-365 | colouring the mark a restore made keeps the text, the restored mark's place and content, and the count of every id, one more for the entry's id than before the restore |
| Highlights.RestyleErases | scripts/highlighter.js:305-325 | restyling an entry whose mark is missing and cannot be restored is erasing it: the document is unchanged and the entry is spliced out |
| Highlights.RestoreMarks | scripts/highlighter.js:352-365 | a successful restore adds exactly one element carrying the entry's id and none carrying another id; a failed one adds nothing |
| Highlights.LocatedMarks | scripts/highlighter.js:745-748 | the located mark carries the entry's id in the document returned, which gains one element with the id exactly when the mark had to be restored |
| Highlights.AppendUnique | scripts/highlighter.js:249 | appending an entry with a new id keeps the ids distinct |
| Highlights.RecolorIds | scripts/highlighter.js:322 | changing an entry's colour keeps the ids and their distinctness |
| Highlights.ApplyKeepsConsistent | scripts/highlighter.js:230-253 | applying with a fresh id keeps the ids distinct and at most one element per id in the document |
| Highlights.EraseKeepsConsistent | scripts/highlighter.js:327-339 | erasing keeps the ids distinct and at most one element per id |
| Highlights.RestyleKeepsConsistent | scripts/highlighter.js:305-325 | restyling keeps the ids distinct and at most one element per id, in each of its three cases |
| Highlights.RestoreAllMarks | scripts/highlighter.js:215-221 | restoring entries in turn never puts a second element carrying an id in the document |
| Highlights.LoadKeepsConsistent | scripts/highlighter.js:205-228 | loading a list whose ids are distinct and whose marks are single keeps both properties |
| Highlights.RestoreAllStep | scripts/highlighter.js:215-221 | restoring in turn is the first entry's restore and then the rest, with its id added to the failed ids when it fails |
| Highlights.FailedIds | scripts/highlighter.js:215-221 | every failed id is the id of an entry |
| Highlights.PruneFailed | scripts/highlighter.js:215-227 | with distinct ids, filtering the failed ids keeps exactly the entries whose restore succeeded, in stored order |
| Highlights.LoadKeepsRestored | scripts/highlighter.js:205-228 | after loading, the list is exactly the stored entries that were restored, in order, and the document is the one they were restored on; whenever the list changed, it is what is saved |
| Highlights.Fallback | scripts/highlighter.js:754 | the content exported without a mark holds exactly the snippet's text |
| Highlights.PayloadStep | scripts/highlighter.js:744-756 | collecting is the first entry's item and then the rest, on the document that item left |
| Highlights.PayloadOrder | scripts/highlighter.js:742-758 | one item per entry, in list order, each carrying its entry's id, colour, snippet and time |
| Highlights.PayloadFallback | scripts/highlighter.js:742-758 | an item's content is its mark's content when the mark is present; otherwise the mark is restored; when that also fails, the content is the snippet's text |
| Highlights.Page.constructor | scripts/highlighter.js:26-32 | a page starts with its document, no highlights, and whatever the storage holds |
| Highlights.Page.SaveHighlights | scripts/highlighter.js:396-402 | the storage holds the current list; nothing else changes |
| Highlights.Page.RestoreHighlight | scripts/highlighter.js:352-365 | returns `Restored` and updates only the document, to the document after the restore |
| Highlights.Page.LocateMark | scripts/highlighter.js:745-748 | the mark is the one found by id or, failing that, the restored one; only the document changes |
| Highlights.Page.ApplyHighlight | scripts/highlighter.js:230-253 | the new state is `Applied` of the old one (partnered by ApplyAppends, ApplyThenReload and ApplyKeepsConsistent) |
| Highlights.Page.EraseHighlight | scripts/highlighter.js:327-339 | the new state is `Erased` of the old one (partnered by the Erase lemmas and EraseKeepsConsistent) |
| Highlights.Page.ClearAllHighlights | scripts/highlighter.js:341-350 | the new state is `Cleared` of the old one (partnered by ClearRemovesAll) |
| Highlights.Page.RestyleHighlight | scripts/highlighter.js:305-325 | the new state is `Restyled` of the old one (partnered by RestyleSpec, RestyleRestores, RestyleErases and RestyleKeepsConsistent) |
| Highlights.Page.RestoreEach | scripts/highlighter.js:215-221 | the loop restores every entry in turn and returns the failed ids in order, as `RestoreAll`; the list and the storage are unchanged |
| Highlights.Page.LoadSavedHighlights | scripts/highlighter.js:205-228 | the new state is `Loaded` of the old one (partnered by LoadKeepsRestored and LoadKeepsConsistent) |
| Highlights.Page.ExportEntry | scripts/highlighter.js:744-756 | one turn of the loop yields `PayloadItem` and changes only the document |
| Highlights.Page.CollectHighlightsPayload | scripts/highlighter.js:742-758 | returns `Payload` of the list, and only the document changes, by the restores made along the way |
| Sorting.InsertAt | popup/popup.js:126 | one pass of the insertion sort leaves the prefix as `Insert` of the earlier elements and the next one, and does not touch the rest |
| Sorting.SortInPlace | popup/popup.js:126 | the array ends up holding `SortBy` of what it held |
| Sorting.SortSorted | popup/popup.js:126 | the sort's result is ordered by rank |
| Sorting.SortPermutes | popup/popup.js:126 | the sort's result holds the same elements, as many times each |
| Sorting.SortStable | popup/popup.js:126 | elements of equal rank keep their original order |
| TextUtil.Trim | popup/popup.js:295 | `trim` leaves no whitespace at either end, and gives nothing exactly for a blank text |
| TextUtil.TrimKeeps | popup/popup.js:295 | `trim` keeps every character that is not whitespace, in order |
| TextUtil.CollapseRuns | popup/popup.js:311 | a run replacement leaves no two replaced characters adjacent and no other member of the class, keeps the first character's fate, and gives nothing only for nothing |
| TextUtil.CollapseKeeps | popup/popup.js:311 | a run replacement keeps every character outside the class, in order |
| TextUtil.Words | scripts/highlighter.js:636 | the words of a text are nonempty and hold no character of the class |
| TextUtil.CollapseWords | popup/popup.js:311 | a run replacement gives the words joined by one replacement character, with one more in front when the text starts with the class and one more behind when it ends with it after a word |
| TextUtil.CollapseShape | popup/popup.js:311 | the joined words neither start nor end with the class, and a text without words collapses to one replacement character, or nothing when empty |
| TextUtil.CollapseAllClass | popup/popup.js:311 | a nonempty text made of the class only collapses to one replacement character |
| TextUtil.TrimAround | scripts/highlighter.js:636 | trimming whitespace around a text without edge whitespace gives that text |
| TextUtil.TrimWords | scripts/highlighter.js:636 | replacing whitespace runs by one space and trimming gives the words joined by single spaces |
| TextUtil.NatToString | popup/popup.js:264 | a number renders as a non-empty run of decimal digits |
| Markdown.Escape | popup/popup.js:276 | every special character of the escaped text has a backslash before it, and the text does not start with one |
| Markdown.UnescapeEscape | popup/popup.js:276 | escaping loses nothing: removing the added backslashes gives the text back |
| Markdown.ItemsNumbered | popup/popup.js:288-289 | a list gives one line per element child (text children are skipped), each starting with its marker, and the markers are numbered consecutively |
| Markdown.ItemLine | popup/popup.js:288-289 | every line of a list starts with its item's marker |
| Markdown.OrderedList | popup/popup.js:289 | an ordered list becomes one line per element child, numbered 1, 2, 3 and so on, on lines of their own |
| Markdown.InlineEmpty | popup/popup.js:283-285 | bold, italic and code elements give nothing exactly when their content converts to nothing, and otherwise wrap it in their delimiter |
| Markdown.CollapseNewlines | popup/popup.js:295 | the result has no three newlines in a row and starts like the input when that does not start with a newline |
| Markdown.CollapseNewlinesKeeps | popup/popup.js:295 | collapsing removes newlines only: every other character stays, in order |
| Markdown.Tidy | popup/popup.js:295 | the final step leaves no whitespace at either end and no three newlines in a row |
| Markdown.TidyKeeps | popup/popup.js:295 | the final step keeps every non-whitespace character in order, and gives nothing exactly when the collapsed text is blank |
| Markdown.HtmlToMd | popup/popup.js:270-296 | the Markdown has no whitespace at either end and no three newlines in a row |
| Markdown.StripDashes | popup/popup.js:311 | stripping takes off at most one `-` at the front and one at the back, and keeps the rest as a contiguous piece |
| Markdown.CollapsedDashed | popup/popup.js:311 | after lower-casing and replacing runs, only `a`-`z`, `0`-`9` and single dashes are left |
| Markdown.StripDashesSlug | popup/popup.js:311 | stripping the dashes leaves a slug that neither starts nor ends with a dash |
| Markdown.StripAround | popup/popup.js:311 | stripping at most one dash on each side of a text that neither starts nor ends with one gives that text |
| Markdown.SlugWords | popup/popup.js:311 | before the cut, the slug is the maximal runs of `a`-`z` and `0`-`9` of the lower-cased text (or `page`), joined by single dashes |
| Markdown.ShortenSlug | popup/popup.js:311 | cutting at 60, or `page` for nothing, gives a slug that ends in a dash only when the cut took place |
| Markdown.SlugShape | popup/popup.js:310-312 | the slug is never empty, has at most 60 characters from `a`-`z`, `0`-`9` and single dashes, does not start with a dash, and ends with one only when it was cut at 60 |
| Markdown.SlugCutAfterDash | popup/popup.js:310-312 | the cut can leave a trailing dash: 59 letters, a space and a letter give the 59 letters and a dash |
| Popup.RowOf | popup/popup.js:137-143 | a row's dot is the entry's colour or grey, its text is the snippet or the placeholder, and neither is empty |
| Popup.NewestFirstPermutes | popup/popup.js:126 | the list holds every entry exactly once |
| Popup.NewestFirstDescending | popup/popup.js:126 | the list is ordered newest first |
| Popup.NewestFirstStable | popup/popup.js:126 | entries created at the same time keep the order they were saved in |
| Popup.Rows | popup/popup.js:126-161 | one row per entry, each the row of the entry at that place in newest-first order |
| Popup.RowsOf | popup/popup.js:128-161 | the loop appends one row per sorted entry, in order |
| Popup.OppositeOrders | popup/popup.js:126 | entries created at 5, 1 and 3 are listed as 5, 3, 1 |
| Popup.OppositeOrdersExport | popup/popup.js:261 | items created at 5, 1 and 3 are exported as 1, 3, 5 |
| Popup.ExportOldestFirst | popup/popup.js:261 | the export lists every collected item exactly once, oldest first |
| Popup.ExportStable | popup/popup.js:261 | items created at the same time keep the order the page gave them |
| Popup.Section | popup/popup.js:262-264 | a section has four lines: a heading, a blank line, a non-empty body (the placeholder when the body is empty) and a blank line |
| Popup.NumberedStep | popup/popup.js:261-265 | adding an item adds its lines, numbered after the others |
| Popup.NumberedLength | popup/popup.js:261-265 | with four lines per item, the lines number four per item |
| Popup.NumberedLayout | popup/popup.js:261-265 | the item at place k gets lines 4k to 4k+3, numbered k + 1 |
| Popup.SectionsLayout | popup/popup.js:261-265 | the sections have four lines per item, and the item at place k gets the section numbered k + 1 |
| Popup.PushBlocks | popup/popup.js:261-265 | the loop appends the numbered lines of all items to what was there |
| Popup.JoinHead | popup/popup.js:267 | a join starts with the first part when that part is not empty |
| Popup.FinishShape | popup/popup.js:267 | the finished text starts like the first line, ends in exactly one newline after a non-whitespace character, and keeps every non-whitespace character in order |
| Popup.DocumentShape | popup/popup.js:252-268 | the document starts with the title's `#`, ends in exactly one newline after a non-whitespace character, and keeps every non-whitespace character of its lines in order |
| Popup.PopupController.constructor | popup/popup.js:42-57 | the popup starts with the tab's highlights, title and address, an empty list, and no status |
| Popup.PopupController.RenderList | popup/popup.js:109-162 | the list shows `Rows` of the highlights; the list is hidden and the buttons disabled exactly when there are none, in which case the status is the empty-list message and otherwise the status is cleared; nothing else changes |
| Popup.PopupController.BuildMarkdown | popup/popup.js:252-268 | sorts the items in place oldest first and returns the document of the header and the numbered sections of the sorted items (partnered by DocumentShape, SectionsLayout and ExportOldestFirst) |

## Left out

- The user interface is not modelled:
  - the floating button, the palette, the tooltip and hover timers;
  - geometry (`anchorRect`);
  - `focusHighlight`, the editing state (`editingHighlightId`, `clearEditingHighlight`);
  - the message handlers and the popup's event bindings, icons and URL label.
- Ids and the clock are parameters:
  - `createId()` becomes `id`;
  - `Date.now()` becomes `now`;
  - `new Date().toISOString()` becomes `exportedAt`.
- The storage adapter is a field that `saveHighlights` writes. Its asynchrony and its
  errors are left out; a read that fails is treated like a stored value that is not an
  array.
- Messaging between the popup and the page is left out. So are `exportPdf`,
  `downloadFile` and the file name built at popup/popup.js:226, which `slugify` feeds.
- HTML strings are not modelled:
  - `innerHTML` is taken to serialize and parse back to the same nodes;
  - an item's HTML counts as present when it has nodes;
  - the snippet used as HTML content is taken as one text node.
- `Markdown.Href`: `node.href` is taken as the attribute's text. URL resolution against
  the page's address is left out.
- `MarkWrapper.ApplyColorToMark`: the `style` attribute is modelled as holding only the
  background declaration, with the colour written verbatim. CSS parsing, the browser's
  serialisation of the colour and the dropping of an invalid colour are left out.
- `Markdown.Lower`: `toLowerCase` is modelled for ASCII letters only.
- Node types are only text nodes and elements. Comments and other node types are left
  out, so `convert`'s branch for them does not arise.
- Lengths count Dafny characters, not UTF-16 code units.
- Paths are integers. Non-integer and NaN path entries are left out.
- `MarkWrapper.Wrap`: only ranges whose two ends lie in the children, or the text
  children, of one element below the document are wrapped. The model treats every other
  range like one whose wrap fails.
- `MarkWrapper.Classify`: the shapes above are the only ones recognised; any other
  range gives `None`.
- `Highlights.RangeString`: the text of ranges of any other shape is taken as empty.
- Live-range updates of other ranges during a mutation are left out. So is `CSS.escape`,
  since the model compares ids directly.
- `Sorting.SortBy`: `createdAt` is an integer, not a double. The sort is the stable one
  that ECMAScript 2019 requires of `Array.prototype.sort`, written as an insertion sort.
- The popup's localized strings are not modelled:
  - the status is the key passed to `setStatus`;
  - the markdown heading words stand for the entries of the English `STRINGS` table.
- `Popup.PopupController.RenderList`: the delete and focus buttons of each row are not
  modelled, only the row's id, dot colour and text.
