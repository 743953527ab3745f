# QuickDoc Preview: the editor provider and the document renderer

QuickDoc Preview is a VS Code extension that shows Word (`.docx`) and
OpenDocument (`.odt`) files in a read-only webview. This project models its
two central classes in Dafny and proves what they do:

- `DocxEditorProvider` (`src/docxEditorProvider.ts`) is the custom editor
  provider. It keeps a registry of open panels. `activeWebviewPanels` maps a
  document URI to its panel, and `panelsByPath` maps a file path to the
  panels showing that file. It also keeps the zoom, outline, theme and
  toolbar preferences. It forwards scroll positions between panels that show
  the same file. When a file is open twice, it diffs the two renderings
  block by block and tells each panel which blocks to highlight. It handles
  the messages a webview sends back and the toolbar commands.
- `DocumentRenderer` (`src/render.ts`) converts a document to HTML and picks
  the converter by file extension. It gives every heading an id, collects an
  outline of the headings that have text, and fills the viewer page.
  Otherwise it shows one of two error pages. It keeps the view state the
  page embeds in static fields.

Modules, one file each:

| file | module | what it holds |
|---|---|---|
| `text.dfy` | `Text` | `Option`, character classes, JavaScript `trim`, tag stripping |
| `extract.dfy` | `BlockExtract` | the block regex of `extractParagraphText`, as a specification and as the loop |
| `diff.dfy` | `SequenceDiff` | the LCS table, the backtrack and the run merge of `diffArrays` |
| `remap.dfy` | `IndexRemap` | the index bookkeeping that turns diff parts into highlight indices |
| `heading.dfy` | `HeadingIds` | `generateHeadingId` |
| `outline.dfy` | `Outline` | the heading pass `processDocumentHtmlAndExtractOutline` and `generateOutlineHtml` |
| `ordered_map.dfy` | `JsCollections` | JavaScript `Map` with insertion order, `indexOf`, `splice` |
| `renderer.dfy` | `Renderer` | `DocumentRenderer` as a class and `renderDocument` |
| `provider_spec.dfy` | `ProviderRules` | the functions the provider's methods are proved against, and their lemmas |
| `provider.dfy` | `EditorProvider` | `DocxEditorProvider` as a class |

The converters (`DocxHandler.renderDocx`, `OdtHandler.renderOdt`) and the
`quickdoc` configuration are parameters. A converter is a function from a
URI to `Success(html)` or `Failure(message)`. A thrown error is a `Failure`.
A webview is a `Panel` value. A `postMessage` or a VS Code notification is
returned as an `Effect` rather than performed.

## Model

| member | source | states |
|---|---|---|
| Text.LowerAscii | src/render.ts:195 | lower-casing maps `A`-`Z` 32 code points down and leaves every other character alone |
| Text.MatchesAtMeaning | src/docxEditorProvider.ts:169 | a case-insensitive literal match at `k` holds iff every character agrees with the word after ASCII case folding |
| Text.TrimStartSpec | src/docxEditorProvider.ts:173 | the leading trim removes exactly a maximal prefix of white space |
| Text.TrimEndSpec | src/docxEditorProvider.ts:173 | the trailing trim removes exactly a maximal suffix of white space |
| Text.TrimSpec | src/render.ts:179 | `trim` gives a slice of the input with only white space cut on both sides and no white space at either end |
| Text.TrimIdempotent | src/render.ts:179 | trimming twice is trimming once |
| Text.TrimOfTrimmed | src/render.ts:179 | a string without white space at either end is its own trim |
| Text.FindGtFirst | src/docxEditorProvider.ts:169 | the `[^>]*>` scan stops at the first `>` after `k`, or finds none when there is none |
| Text.StripTagsKeeps | src/docxEditorProvider.ts:173 | every character of the stripped text occurs in the input |
| Text.StripTagsTag | src/render.ts:179 | text before a tag is kept, the tag `<…>` is deleted, and stripping goes on after it: `x<y>z` becomes `x` followed by the stripped `z` |
| Text.StripTagsNoAngle | src/render.ts:179 | text with no `<` passes tag stripping unchanged |
| Text.StripTagsTagFree | src/render.ts:179 | after stripping, no tag of the stripped form is left, for both the `<[^>]*>` and the `<[^>]+>` pattern |
| Text.TagFreeSlice | src/render.ts:179 | a slice of tag-free text is tag-free |
| HeadingIds.DigitChar | src/render.ts:199 | a digit is the character whose code is `'0'` plus its value |
| HeadingIds.Decimal | src/render.ts:199 | the decimal form of a counter is a non-empty string of digits |
| HeadingIds.DecimalValue | src/render.ts:199 | reading the decimal form back gives the number |
| HeadingIds.DecimalInjective | src/render.ts:199 | different counters have different decimal forms |
| HeadingIds.Lower | src/render.ts:195 | `toLowerCase` keeps the length and lower-cases each character |
| HeadingIds.KeepIdChars | src/render.ts:196 | removing `[^\w\s-]` leaves only word characters, white space and `-`, all taken from the input |
| HeadingIds.KeepIdCharsAppend | src/render.ts:196 | the filter of a concatenation is the concatenation of the filters, so kept characters stay in order |
| HeadingIds.KeepIdCharsOne | src/render.ts:196 | a single character is kept exactly when it is in `[\w\s-]` |
| HeadingIds.KeepIdCharsKept | src/render.ts:196 | text made only of `[\w\s-]` characters is unchanged |
| HeadingIds.DashSpaces | src/render.ts:197 | replacing white-space runs by `-` leaves no white space and adds only `-` |
| HeadingIds.DashSpacesRun | src/render.ts:197 | a maximal white-space run of any length at the front becomes exactly one `-`, and the rest is processed after it |
| HeadingIds.DashSpacesKeeps | src/render.ts:197 | characters other than white space at the front are kept as they are |
| HeadingIds.DashSpacesNoSpace | src/render.ts:197 | text without white space is unchanged |
| HeadingIds.BaseId | src/render.ts:194-198 | the base id is at most 50 characters long |
| HeadingIds.HeadingId | src/render.ts:193-199 | an id is made of lower-case ASCII letters, digits, `_` and `-` only, and is at most 51 characters longer than the index's numeral |
| HeadingIds.BaseIdChars | src/render.ts:194-198 | the base id has at most 50 characters, all lower-case word characters or `-` |
| HeadingIds.HeadingIdsDistinct | src/render.ts:193-200 | two headings with different counters get different ids, whatever their texts |
| HeadingIds.HeadingIdSuffix | src/render.ts:199 | an id is the base id, a `-`, and the counter in decimal |
| HeadingIds.BaseIdIdempotent | src/render.ts:194-198 | deriving a base id from a base id changes nothing |
| HeadingIds.CollapsedSpaces | src/render.ts:197 | a run of spaces or a tab becomes a single `-` and upper case is folded (`"a  b"` and `"A\tb"` give `a-b`) |
| BlockExtract.NameLengthAlternation | src/docxEditorProvider.ts:169 | whichever alternative of `p\|h[1-6]\|li\|div\|blockquote` matches, the name length found is its length |
| BlockExtract.NameLengthFound | src/docxEditorProvider.ts:169 | a name length is found only when one of the alternatives matches |
| BlockExtract.FindCloseFirst | src/docxEditorProvider.ts:169 | the lazy body ends at the first closing tag whose name repeats the opening name (case-insensitively), or there is none |
| BlockExtract.MatchAtExact | src/docxEditorProvider.ts:169 | the match computed at a position is exactly the regex match defined there: an opening tag with a block name, attributes up to `>`, the shortest body, and the back-referenced closing tag |
| BlockExtract.FindMatchLeftmost | src/docxEditorProvider.ts:172 | `exec` returns the leftmost match at or after `lastIndex` |
| BlockExtract.FindMatchNone | src/docxEditorProvider.ts:172 | when `exec` returns null there is no match anywhere after `lastIndex` |
| BlockExtract.MatchesOrdered | src/docxEditorProvider.ts:172 | successive global matches do not overlap and come in document order |
| BlockExtract.MatchesCount | src/docxEditorProvider.ts:172 | every match takes at least seven characters, so the loop ends |
| BlockExtract.BlocksOfMatches | src/docxEditorProvider.ts:172-174 | there is one block per match, and it is the match's body cleaned |
| BlockExtract.ExtractParagraphText | src/docxEditorProvider.ts:168-176 | the loop returns exactly the cleaned bodies of the global matches, in order |
| BlockExtract.BlocksAreClean | src/docxEditorProvider.ts:173 | every block is trimmed and holds no tag |
| BlockExtract.NoTagsNoBlocks | src/docxEditorProvider.ts:168-176 | HTML without `<` has no blocks |
| BlockExtract.TwoParagraphs | src/docxEditorProvider.ts:168-176 | two plain paragraphs one after the other give their two texts |
| BlockExtract.HelloWorld | src/docxEditorProvider.ts:168-176 | `<p>Hello</p><p>World</p>` gives `["Hello", "World"]` |
| BlockExtract.EmptyElementKept | src/docxEditorProvider.ts:173 | an empty paragraph still gives a block, the empty string |
| SequenceDiff.Lcs | src/docxEditorProvider.ts:181-191 | the table entry is bounded by both prefix lengths |
| SequenceDiff.LcsSteps | src/docxEditorProvider.ts:186-188 | growing either prefix by one raises the table entry by at most one |
| SequenceDiff.LcsIsOptimal | src/docxEditorProvider.ts:181-191 | no edit script keeps more elements than the table's last entry |
| SequenceDiff.ReplaysLengths | src/docxEditorProvider.ts:198-210 | an edit script that replays the two arrays keeps and removes as many elements as the first has, and keeps and adds as many as the second has |
| SequenceDiff.CompressExpand | src/docxEditorProvider.ts:212-225 | merging adjacent runs of the same kind does not change the edits they stand for |
| SequenceDiff.CompressWellFormed | src/docxEditorProvider.ts:212-225 | after merging, no two adjacent parts have the same kind and no part is empty |
| SequenceDiff.CompressWellFormedIdentity | src/docxEditorProvider.ts:212-225 | merging an already merged list changes nothing |
| SequenceDiff.TraceReplays | src/docxEditorProvider.ts:198-212 | the reversed backtrack is an edit script from the first array to the second |
| SequenceDiff.TraceKept | src/docxEditorProvider.ts:198-212 | the backtrack keeps as many elements as the longest common subsequence has |
| SequenceDiff.DiffCorrect | src/docxEditorProvider.ts:178-228 | the diff is merged, replays the first array into the second, keeps an LCS, and its removed and added totals are the lengths minus the LCS; it is empty iff both arrays are |
| SequenceDiff.DiffIsMinimal | src/docxEditorProvider.ts:178-228 | no edit script removes and adds fewer elements in total than the diff |
| SequenceDiff.TieBreakExample | src/docxEditorProvider.ts:203 | on a tie the backtrack prefers the addition, so `[x, y]` to `[y, x]` is removed, kept, added |
| SequenceDiff.AppendedBlockExample | src/docxEditorProvider.ts:178-228 | appending one new block diffs as two kept and one added |
| SequenceDiff.FillTable | src/docxEditorProvider.ts:181-191 | the nested loops fill every entry of the matrix with the LCS length of the two prefixes |
| SequenceDiff.Backtrack | src/docxEditorProvider.ts:193-210 | the backtracking loop pushes exactly the trace the specification describes |
| SequenceDiff.MergeRuns | src/docxEditorProvider.ts:212-225 | the merge loop returns the stack with each run of adjacent same-kind parts merged into one part |
| SequenceDiff.DiffArrays | src/docxEditorProvider.ts:178-228 | the method returns the diff, with the correctness facts of `DiffCorrect` |
| IndexRemap.PositionsMeaning | src/docxEditorProvider.ts:144-159 | the recorded indices are strictly increasing and are exactly the positions of the given kind |
| IndexRemap.SideCounts | src/docxEditorProvider.ts:144-159 | the first document's side holds all removals and the second's all additions |
| IndexRemap.RemapIndices | src/docxEditorProvider.ts:138-159 | the loop's removal and addition lists are the removed positions in the first document and the added positions in the second, and the counters end at the two document lengths |
| IndexRemap.SidesOfReplay | src/docxEditorProvider.ts:144-159 | along any edit script, the blocks of the first document left unremoved are the blocks of the second left unadded |
| IndexRemap.RemapOfDiff | src/docxEditorProvider.ts:133-159 | for the diff of two block lists, the removal indices are increasing, lie in the first list, and number its length minus the LCS; the same holds for additions in the second; and the unhighlighted blocks agree |
| IndexRemap.AppendedBlockRemap | src/docxEditorProvider.ts:133-159 | appending one block highlights exactly that block's index in the second document and nothing in the first |
| Outline.FindClose | src/render.ts:176 | a closing tag is found only at or after the start of the body |
| Outline.FindCloseFirst | src/render.ts:176 | the lazy `.*?` body ends at the first `</hN>` of any level, and never crosses a line terminator |
| Outline.HeadingAtSound | src/render.ts:176 | a heading found at a position matches the regex there |
| Outline.HeadingAtComplete | src/render.ts:176 | a regex match at a position is found there |
| Outline.HeadingAtExact | src/render.ts:176 | the heading found at a position is exactly the regex match there |
| Outline.FindHeadingLeftmost | src/render.ts:175-176 | the global replace takes the leftmost heading first |
| Outline.Level | src/render.ts:178 | a heading's level is between 1 and 6 |
| Outline.ProcessDocumentHtmlAndExtractOutline | src/render.ts:169-191 | the replace loop gives the processed HTML and the outline the specification `ProcessFrom` defines |
| Outline.OutlineLength | src/render.ts:182-184 | the outline has at most one entry per heading |
| Outline.EntryIndicesRange | src/render.ts:180 | each outline entry's counter lies between the first and last heading counters |
| Outline.EntryIndicesIncrease | src/render.ts:180 | the counters of the outline entries strictly increase |
| Outline.OutlineEntryIds | src/render.ts:180-183 | each entry's id is the heading id of its text and counter |
| Outline.HeadingTextClean | src/render.ts:179 | a heading's text is trimmed and holds no tag |
| Outline.OutlineItemsClean | src/render.ts:178-184 | every outline entry has a level from 1 to 6 and a non-empty, trimmed, tag-free text |
| Outline.OutlineIdsDistinct | src/render.ts:169-191 | no two outline entries share an id |
| Outline.HeadingsChain | src/render.ts:175-176 | the headings the global replace visits lie in document order and do not overlap |
| Outline.SlotsAt | src/render.ts:175-180 | heading `t` of the run is copied after the text since the end of heading `t - 1` and is given counter `t` more than the first |
| Outline.HtmlBySlots | src/render.ts:175-187 | the processed HTML is the run's slots rendered one after another, then the text after the last heading |
| Outline.OutlineBySlots | src/render.ts:175-184 | the outline is the entries of the run's headings, in document order |
| Outline.ProcessedHtml | src/render.ts:175-187 | from the start of the document, the processed HTML interleaves the unchanged text between headings with each heading `t` rewritten as `<tag id="…">content</tag>` carrying the id of its text and of `t`; the outline holds the entries of the headings with text, in order |
| Outline.GapsHaveNoHeading | src/render.ts:175-176 | no heading match starts in the text the replace copies unchanged |
| Outline.TextFlagsAt | src/render.ts:179-182 | flag `t` says whether heading `t` has non-empty text |
| Outline.EntryIndicesMarks | src/render.ts:180-184 | the recorded counters are exactly those of the headings whose flag is set |
| Outline.EntryIndicesExact | src/render.ts:180-184 | the outline's counters are exactly the positions of the headings with non-empty text |
| Outline.NoHeadingsUnchanged | src/render.ts:169-191 | HTML without headings comes back unchanged, with an empty outline |
| Outline.ItemsHtml | src/render.ts:207-213 | there is one item per outline entry, in order |
| Outline.GenerateOutlineHtml | src/render.ts:202-215 | the outline HTML is the "No headings found" paragraph iff the outline is empty |
| Outline.JoinAppend | src/render.ts:214 | joining with `''` distributes over concatenation |
| Outline.OutlineHtmlInOrder | src/render.ts:207-214 | the outline HTML of two non-empty outlines is the concatenation of their outline HTMLs |
| JsCollections.OrderedMap.Get | src/docxEditorProvider.ts:20 | `get` returns a value iff the key is present |
| JsCollections.OrderedMap.Set | src/docxEditorProvider.ts:17 | `set` stores the value under the key |
| JsCollections.OrderedMap.Delete | src/docxEditorProvider.ts:36 | `delete` removes the key's entry |
| JsCollections.OrderedMap.Values | src/docxEditorProvider.ts:306 | `values()` lists the values in key insertion order |
| JsCollections.IndexOf | src/docxEditorProvider.ts:38 | `indexOf` finds the first occurrence, or reports none iff the element is absent |
| JsCollections.RemoveAt | src/docxEditorProvider.ts:40 | `splice(i, 1)` drops the element at `i` and shifts the rest down |
| JsCollections.SetMeaning | src/docxEditorProvider.ts:17 | `set` keeps the map valid, reads back its value, changes no other key, and appends a new key last |
| JsCollections.DeleteMeaning | src/docxEditorProvider.ts:36 | `delete` keeps the map valid, removes only that key, and keeps the other keys' order |
| JsCollections.SetDeleteRoundTrip | src/docxEditorProvider.ts:17-36 | setting a new key and deleting it restores the map, order included |
| JsCollections.RemoveAppended | src/docxEditorProvider.ts:38-40 | splicing out the index `indexOf` finds for an element pushed last gives back the array before the push |
| Renderer.ThemeClass | src/render.ts:67-72 | the body class is `vscode-dark` iff the theme is `dark`, and `vscode-light` iff it is `light` |
| Renderer.ThemeClasses | src/render.ts:67-72 | any other theme gets `vscode-theme-auto` |
| Renderer.FormatBySuffix | src/render.ts:30-33 | a path ending in `.docx` or `.DOCX` is a Word document; one ending in `.odt` or `.ODT` is OpenDocument |
| Renderer.ErrorPages | src/render.ts:36-56 | an unsupported extension gives the unsupported-format page; a converter failure gives the load-failure page with the converter's message; otherwise the viewer is shown |
| Renderer.ViewerPage | src/render.ts:30-50 | for a `.docx` or `.odt` file whose converter succeeds, the viewer shows the processed document, the outline of distinct ids, the configured font and the view state; the placeholder appears iff there is no outline entry |
| Renderer.DocumentRenderer.constructor | src/render.ts:7-10 | the static fields start at zoom 1.0, outline hidden, theme `auto`, toolbar shown |
| Renderer.DocumentRenderer.UpdateZoom | src/render.ts:266-268 | only the zoom changes |
| Renderer.DocumentRenderer.ToggleOutline | src/render.ts:270-272 | only the outline flag flips |
| Renderer.DocumentRenderer.UpdateTheme | src/render.ts:274-276 | only the theme changes |
| Renderer.DocumentRenderer.ToggleToolbar | src/render.ts:278-280 | only the toolbar flag flips |
| Renderer.DocumentRenderer.RenderDocument | src/render.ts:12-57 | zoom, outline and theme are taken from the settings with their defaults, whatever the format; the toolbar flag is kept; the page is the one `PageFor` defines |
| ProviderRules.OpenedRegistry | src/docxEditorProvider.ts:16-22 | opening a panel keeps the registry valid, appends the panel to its path's group, and leaves other groups alone |
| ProviderRules.RemoveAtDistinct | src/docxEditorProvider.ts:40 | splicing keeps a group free of duplicates |
| ProviderRules.DisposedRegistry | src/docxEditorProvider.ts:35-47 | disposing keeps the registry valid and leaves other groups alone; a panel outside its group changes nothing; otherwise the group loses exactly that panel, the others keep their order (`splice` at its index), and the file's entry is deleted exactly when the panel was the only member |
| ProviderRules.OpenCloseRoundTrip | src/docxEditorProvider.ts:16-47 | opening a new panel and disposing it restores both maps |
| ProviderRules.SharedUriDispose | src/docxEditorProvider.ts:17-36 | a second panel on the same URI replaces the first, and disposing either removes the URI for both |
| ProviderRules.PathOf | src/docxEditorProvider.ts:91-96 | the path found is a key whose group contains the source panel |
| ProviderRules.PathOfNone | src/docxEditorProvider.ts:91-96 | no path is found iff no group contains the source panel |
| ProviderRules.FanoutMeaning | src/docxEditorProvider.ts:101-105 | every post is a `syncScroll` with the same percentage to a group member other than the source, and every other member gets one |
| ProviderRules.FanoutOnce | src/docxEditorProvider.ts:101-105 | when the group lists each panel once, every member other than the source gets exactly one `syncScroll` and no other panel gets any |
| ProviderRules.ScrollOnce | src/docxEditorProvider.ts:89-108 | with the registry's groups, a scroll sends exactly one `syncScroll` to each other member of the source's group, one post fewer than the group's size |
| ProviderRules.ScrollFanOut | src/docxEditorProvider.ts:89-108 | a scroll reaches exactly the other panels of the source's group, and nothing is sent when no group holds the source |
| ProviderRules.UriOf | src/docxEditorProvider.ts:118-123 | the URI found maps to the panel |
| ProviderRules.ResolvedMeaning | src/docxEditorProvider.ts:117-125 | each resolved pair is a group panel together with a URI that maps to it |
| ProviderRules.ResolvedDistinct | src/docxEditorProvider.ts:117-125 | the resolved panels are pairwise different |
| ProviderRules.HighlightMeaning | src/docxEditorProvider.ts:138-162 | the first panel gets only removals and the second only additions; both lists are increasing indices within their documents and as long as the document minus the LCS |
| ProviderRules.DiffDispatch | src/docxEditorProvider.ts:110-166 | either nothing is sent or two highlights go to the first two resolved panels of the group, which are different |
| ProviderRules.AppendedBlockHighlight | src/docxEditorProvider.ts:130-162 | after appending a block, the second panel highlights that block and the first highlights nothing |
| ProviderRules.MessageSettings | src/docxEditorProvider.ts:56-87 | only the four settings messages change state; zoom and theme stay in step with the renderer; an outline message can leave the two outline flags out of step |
| ProviderRules.Notifications | src/docxEditorProvider.ts:78-85 | an error report shows one error with the viewer-error prefix; an info report shows its message iff the message is non-empty; a scroll sends the scroll posts |
| ProviderRules.ZoomSteps | src/docxEditorProvider.ts:230-244 | zoom in never lowers and zoom out never raises the zoom, and both stay within 0.5 to 3.0 |
| ProviderRules.ThemeCycle | src/docxEditorProvider.ts:257-266 | the theme toggle cycles `auto`, `light`, `dark` with period three and sends any other value to `auto` |
| ProviderRules.TargetChoice | src/docxEditorProvider.ts:305-308 | no panel is chosen iff none was given and none is active; otherwise the first active panel in insertion order |
| ProviderRules.UpdateKeepsStep | src/docxEditorProvider.ts:273-295 | a zoom or theme update leaves the renderer holding the provider's value and nothing else changed |
| EditorProvider.DocxEditorProvider.constructor | src/docxEditorProvider.ts:9-14 | empty registry, zoom 1.0, outline shown, theme `auto`, toolbar shown |
| EditorProvider.DocxEditorProvider.ResolveCustomEditor | src/docxEditorProvider.ts:16-54 | the panel is registered under its URI and appended to its path's group, the document is rendered, and a diff runs when the group has two panels |
| EditorProvider.DocxEditorProvider.OnDidDispose | src/docxEditorProvider.ts:35-47 | the URI is deleted and the panel spliced out of its group, removing the group when it empties |
| EditorProvider.DocxEditorProvider.SyncScroll | src/docxEditorProvider.ts:89-108 | the loops send the scroll posts the specification defines |
| EditorProvider.DocxEditorProvider.FindUri | src/docxEditorProvider.ts:118-123 | the inner loop finds the first URI in insertion order that maps to the panel |
| EditorProvider.DocxEditorProvider.TriggerDiffUpdate | src/docxEditorProvider.ts:110-166 | the method sends exactly the highlight posts the specification defines |
| EditorProvider.DocxEditorProvider.HandleWebviewMessage | src/docxEditorProvider.ts:56-87 | the provider's settings, the renderer's view and the effects follow each message as the specification defines, and the registry is unchanged |
| EditorProvider.DocxEditorProvider.SendUpdate | src/docxEditorProvider.ts:273-303 | with a target panel the update is posted and applied to the renderer; without one nothing happens |
| EditorProvider.DocxEditorProvider.HandleZoomIn | src/docxEditorProvider.ts:230-236 | below 3.0 the zoom steps up, capped at 3.0, and is sent with a status-bar update; at 3.0 or above nothing happens |
| EditorProvider.DocxEditorProvider.HandleZoomOut | src/docxEditorProvider.ts:238-244 | above 0.5 the zoom steps down, floored at 0.5, and is sent with a status-bar update; otherwise nothing happens |
| EditorProvider.DocxEditorProvider.HandleResetZoom | src/docxEditorProvider.ts:246-250 | the zoom becomes 1.0 and is sent with a status-bar update |
| EditorProvider.DocxEditorProvider.HandleToggleOutline | src/docxEditorProvider.ts:252-255 | the outline flag flips and is sent |
| EditorProvider.DocxEditorProvider.HandleToggleTheme | src/docxEditorProvider.ts:257-266 | the theme moves to the next in the cycle and is sent |
| EditorProvider.DocxEditorProvider.HandleToggleToolbar | src/docxEditorProvider.ts:268-271 | the toolbar flag flips and is sent |
| EditorProvider.DocxEditorProvider.GetActiveWebviewPanel | src/docxEditorProvider.ts:305-308 | the first registered panel, or none iff the registry is empty |
| EditorProvider.DocxEditorProvider.HasActiveWebviewPanels | src/docxEditorProvider.ts:314-316 | true iff some panel is registered |

Where the code and its design description differ, the model follows the
code:

- `triggerDiffUpdate` diffs the first two group members that have an entry
  in `activeWebviewPanels`. These are not always the group's first two
  panels, for two reasons. Opening a second panel on the same URI
  overwrites the first panel's entry (`src/docxEditorProvider.ts:17`).
  Disposing a panel deletes its URI's entry even when another panel still
  uses that URI (`src/docxEditorProvider.ts:36`).
- Both documents are diffed with the Word converter
  (`src/docxEditorProvider.ts:130-131`), even for `.odt` files.
- The provider starts with the outline shown, but the renderer starts with
  it hidden and `renderDocument` reads `showOutline` with default `false`.
  The `outlineToggled` message sets the provider's flag to the sent value
  but flips the renderer's flag, so the two can disagree.
  `ProviderRules.MessageSettings` states both cases.
- The heading regex has no back-reference, so `<h1>x</h2>` is one heading.
  Its `.*?` body does not cross a line terminator.
- In `syncScroll` an empty path is falsy, so a panel whose file path is
  empty gets no scroll fan-out.

## Left out

- HTML templates: the loading page, the error page markup, the enhanced viewer page markup, the CSS and the viewer script are not modelled. A page is the data that fills them.
- `path.basename` for the page title is not modelled.
- The webview side of the protocol is not modelled. That is the script that reacts to `syncScroll`, `highlight` and the update messages.
- Async and await: every handler runs to completion, and interleavings of concurrent renders or messages are not modelled.
- `vscode.workspace.getConfiguration` is a `Settings` parameter. The converters are function parameters. Their internals (`docx_handler`, `odt_handler`) are not part of this model.
- `vscode.Uri.parse(uri.toString())` is taken to give back the same URI, and a URI is its string.
- The webview options, `onDidReceiveMessage` registration and the `onDidDispose` closure registration are not modelled. The closure's body is the method `OnDidDispose`.
- `console.error` logging is not modelled.
- `getCurrentZoom`, `saveCustomDocument` and the other no-op members of the `CustomEditorProvider` interface are left out. They read a field or do nothing.
- `onDidChangeCustomDocument` is an event emitter that is never fired, and is left out.
- ProviderRules.ZoomSteps: zoom arithmetic is on exact reals. Floating-point rounding of `+ 0.1` and `- 0.1` is not modelled.
- Text.LowerAscii: `toLowerCase` and the `i` regex flag fold only ASCII letters here. Unicode case mapping is not modelled.
- Strings are sequences of Unicode code points, not UTF-16 code units. `trim` and `\s` use JavaScript's white-space and line-terminator set, listed in `Text.IsSpace`.
- HeadingIds.KeepIdChars: `\w` is ASCII letters, digits and `_`, as in JavaScript without the `u` flag.
- EditorProvider.DocxEditorProvider.ResolveCustomEditor: requires that the panel is not already in its path's group. VS Code hands each panel to the provider once.
