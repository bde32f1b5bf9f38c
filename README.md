# Editor and demo components, modelled in Dafny

This project models the data logic of a small React playground of code
editors and state-management demos. The models cover seven components:

- **Diff view** (`src/code-differ.jsx`) takes the chunks of a line diff. It
  computes where each chunk starts in the current and the new text. "Apply"
  splices one chunk's lines into the current text, or out of it.
- **Monaco tag manager** (`src/code-editor.jsx`, class `MonacoTagManager`).
  It inserts a tag as a placeholder wrapped in zero-width spaces and tracks
  it by a decoration. The left and right arrows jump over a tag as a unit.
  Backspace and Delete remove a whole tag.
- **CodeMirror tag decorations** (`src/code-mirror-editor.jsx`) finds every
  non-overlapping occurrence of each `componentMap` tag text. Each one gets
  an atomic replace-decoration. Backspace or Delete next to one removes it
  whole, and tag text can be inserted at the cursor.
- **`jsonToTsv`** (`src/univer-app.jsx`) turns a sheet's 2-D cell array into
  tab-separated text.
- **Flow canvas** (`src/App.jsx`) is the press, drag, release and
  choose-a-type sequence that adds a node.
- **Immer list demo** (`src/demo-useCallback_useMemoizedFn.jsx`) makes one
  hundred draft edits of the last list entry.
- **zustand store** (`src/demo-zustand.jsx`) holds a status and a counter.

## File layout

- `text_lines.dfy` (`TextLines`) holds the shared models of JavaScript's
  `split`/`join` on one separator character: `Split`, `Join`, `Count`, and
  the lemmas that link them.
- `wrappers.dfy` (`Wrappers`) holds an `Option` type.

## How each kind of code is modelled

- Code that updates state in place becomes a `class`, with `modifies` on
  its methods:
  - the Monaco tag manager;
  - the flow canvas;
  - the list demo;
  - the store.
- Loops become `while` loops with invariants, each proved against a
  specification function:
  - `computeIndices`;
  - the tag scan;
  - the `regex.exec` loop;
  - the key loop of `createDecorations`;
  - the hundred-step click handler.
- Code built from pure expressions becomes functions, and its properties
  are lemmas:
  - the `StateField` rules;
  - `deleteAtomicWidget`;
  - the CodeMirror `insertTag`;
  - `jsonToTsv`.

## Model

| member | source | states |
|---|---|---|
| CodeDiffer.ComputeIndices | src/code-differ.jsx:22-39 | One entry per chunk, in chunk order. Entry k starts at the line count of the earlier chunks that are not added (current text) and not removed (new text). Both start columns are non-decreasing. |
| CodeDiffer.LineCountByNewlines | src/code-differ.jsx:28-30 | A chunk's line count is its number of newlines, plus one for a last line that has no newline after it. |
| CodeDiffer.LineCountByPieces | src/code-differ.jsx:28-30 | The line count is the number of split pieces, less one exactly when the value is empty or ends in a newline. |
| CodeDiffer.PrefixLinesMonotone | src/code-differ.jsx:31-36 | The running start counters never decrease along the chunk list. |
| CodeDiffer.DisplayLines | src/code-differ.jsx:76-79 | The lines shown for a chunk are as many as its line count, and none holds a newline. |
| CodeDiffer.PoppedLines | src/code-differ.jsx:53-56 | The split of an added chunk with its trailing empty piece popped is exactly the chunk's displayed lines. |
| CodeDiffer.SpliceChunk | src/code-differ.jsx:51-61 | The in-place splice computes the applied line list: it inserts the popped lines for an added chunk, deletes the line count for a removed one, and leaves other chunks alone. |
| CodeDiffer.ApplyChunk | src/code-differ.jsx:46-64 | The new lines are the current text's lines with the chunk applied at its recorded start, and the merged code is their newline join. |
| CodeDiffer.ApplyAddedChunk | src/code-differ.jsx:51-57 | An added chunk's lines go in at its start, or at the end of a shorter text. Earlier lines stay, the old lines from there follow, and the length grows by the line count. |
| CodeDiffer.ApplyRemovedChunk | src/code-differ.jsx:58-60 | A removed chunk deletes line-count lines from its start, or all lines from there when fewer remain. The other lines keep their order. |
| CodeDiffer.ApplyUnchangedChunk | src/code-differ.jsx:50-62 | Applying an unchanged chunk gives back the current code exactly. |
| CodeDiffer.AppliedLinesRoundTrip | src/code-differ.jsx:50-62 | No applied line holds a newline, so the merged code splits back into exactly the applied lines. |
| CodeDiffer.ApplyToLinesNoSeparator | src/code-differ.jsx:51-60 | Splicing a chunk into newline-free lines keeps them newline-free. |
| TextLines.JoinSplit | src/code-differ.jsx:50-62 | Joining the newline split of a string with newlines returns the string. |
| TextLines.SplitJoin | src/univer-app.jsx:66 | A non-empty list of separator-free pieces, joined, splits back into the same pieces. |
| TextLines.SplitLength | src/code-differ.jsx:28 | A split has one piece more than the string has separators. |
| TextLines.SplitLastEmpty | src/code-differ.jsx:30 | The last piece is empty exactly when the string is empty or ends in the separator. |
| MonacoTags.FirstHit | src/code-editor.jsx:252-276 | Gives the first tag in list order that the cursor hits for the key, or none when no tag is hit. A tag whose decoration is gone is never hit. |
| MonacoTags.DeleteTestsMatchArrowTests | src/code-editor.jsx:255-275 | On a range of positive width, the Backspace test equals the left-arrow test and the Delete test equals the right-arrow test. |
| MonacoTags.MonacoTagManager.constructor | src/code-editor.jsx:43-48 | A new manager starts with no tag records and no decorations over the editor's text and cursor. |
| MonacoTags.MonacoTagManager.FindTag | src/code-editor.jsx:252-276 | The scan over `this.tags` returns exactly the first tag hit for the key. |
| MonacoTags.MonacoTagManager.CursorLeft | src/code-editor.jsx:65-90 | From inside or the end of the first tag hit, the cursor goes to that tag's start. Otherwise the editor's own cursor-left runs. |
| MonacoTags.MonacoTagManager.CursorRight | src/code-editor.jsx:92-116 | From the start or inside of the first tag hit, the cursor goes to that tag's end, kept inside the line. Otherwise the editor's own cursor-right runs. |
| MonacoTags.Placeholder | src/code-editor.jsx:126 | The placeholder is the tag text between two zero-width spaces, two characters longer than the text. |
| MonacoTags.MonacoTagManager.InsertTag | src/code-editor.jsx:120-182 | The placeholder goes into the cursor's line at the cursor, and a new decoration covers exactly it. One record is appended and earlier decorations and records stay. The cursor ends after the placeholder. |
| MonacoTags.MonacoTagManager.DeleteTagAtCursor | src/code-editor.jsx:247-304 | For the first tag hit, its range's text is cut, its decoration dropped and every record with its id removed, and the cursor goes to its start. With no hit, the editor's deleteLeft/deleteRight runs and decorations and records stay. |
| MonacoTags.MonacoTagManager.RemoveTag | src/code-editor.jsx:278-296 | The tag branch cuts the range's text, drops the decoration and the records of that id, and puts the cursor at the range's start. |
| MonacoTags.MonacoTagManager.DefaultDelete | src/code-editor.jsx:297-303 | With no tag hit, only the editor's default delete runs. |
| MonacoTags.RemoveTagIdMembers | src/code-editor.jsx:296 | The filter keeps exactly the records of another id. |
| MonacoTags.RemoveTagIdConcat | src/code-editor.jsx:296 | The filter keeps the records' order. |
| MonacoTags.RemoveAbsentTagId | src/code-editor.jsx:296 | Filtering an id no record carries changes nothing. |
| MonacoTags.PlaceholderCutRestoresLine | src/code-editor.jsx:126-138 | Cutting the placeholder's columns out of the line it went into gives the line back. |
| MonacoTags.AddedTagIsFirstHit | src/code-editor.jsx:176-181 | A tag appended after records none of which is hit, with a decoration the cursor hits, is the first hit. |
| MonacoTags.MonacoTagManager.InsertThenBackspace | src/code-editor.jsx:120-304 | Inserting a tag and pressing Backspace right after restores text, cursor, decorations and records. This holds when no earlier tag is hit and no earlier record shares the new id. |
| MonacoTags.ValidatePosition | src/code-editor.jsx:106-109 | `setPosition` lands inside the text, and a position already inside is kept. |
| MonacoTags.ValidateRange | src/code-editor.jsx:279-287 | An edit range is clamped into its line, and a range already inside is kept. |
| MonacoTags.EditorDeleteLeft | src/code-editor.jsx:299 | The editor's deleteLeft keeps a non-empty text and a valid cursor. |
| MonacoTags.EditorDeleteRight | src/code-editor.jsx:301 | The editor's deleteRight keeps a non-empty text and a valid cursor. |
| CodeMirrorTags.UnescapeEscape | src/code-mirror-editor.jsx:96 | Escaping loses no character: reading the pattern back gives the tag text. |
| CodeMirrorTags.EscapeConcat | src/code-mirror-editor.jsx:96 | Escaping works character by character, so it distributes over concatenation. |
| CodeMirrorTags.EscapePlain | src/code-mirror-editor.jsx:96 | A text without metacharacters is left unchanged. |
| CodeMirrorTags.IndexOfLeftmost | src/code-mirror-editor.jsx:99 | `exec` from `lastIndex` finds the leftmost occurrence at or after it, and finds nothing only when there is none. |
| CodeMirrorTags.OccurrencesCorrect | src/code-mirror-editor.jsx:99-109 | Each match covers exactly the tag text at its offsets. The matches do not overlap, and every occurrence not overlapped by an earlier match is reported. |
| CodeMirrorTags.FindMatches | src/code-mirror-editor.jsx:97-109 | The exec loop for one tag yields exactly the leftmost non-overlapping matches. They are exact, disjoint and complete. |
| CodeMirrorTags.CreateDecorations | src/code-mirror-editor.jsx:92-112 | The ranges go to the builder in key order: all matches of each key in turn. |
| CodeMirrorTags.GroupedTwo | src/code-mirror-editor.jsx:62-65 | With the two keys of `componentMap`, the builder gets the `<MyComponent />` matches, then the `<AnotherComponent />` matches. |
| CodeMirrorTags.GroupedByKey | src/code-mirror-editor.jsx:94 | The builder's input is grouped by key: first every `<MyComponent />`, then every `<AnotherComponent />`. |
| CodeMirrorTags.AnotherFirstBreaksOrder | src/code-mirror-editor.jsx:92-112 | A document that starts with `<AnotherComponent />` and holds a `<MyComponent />` gives the builder ranges out of `from` order. |
| CodeMirrorTags.GroupedNotSorted | src/code-mirror-editor.jsx:92-112 | `<AnotherComponent /><MyComponent />` is such a document. |
| CodeMirrorTags.DecorationsSorted | src/code-mirror-editor.jsx:92-112 | The corrected decoration set is sorted by `from` and holds exactly the ranges of the grouped input. |
| CodeMirrorTags.MergeOfSorted | src/code-mirror-editor.jsx:92-112 | Merging two match lists whose concatenation is already in `from` order gives that concatenation. |
| CodeMirrorTags.DecorationsAgreeWhenSorted | src/code-mirror-editor.jsx:92-112 | On every document where the grouped input is already in `from` order, the corrected field equals the ranges the source adds to the builder. |
| CodeMirrorTags.DecorationsInDoc | src/code-mirror-editor.jsx:99-108 | Every decoration is atomic, non-empty and inside the document, spans exactly its tag text's width and covers an occurrence of that text. |
| CodeMirrorTags.Create | src/code-mirror-editor.jsx:116-118 | The initial state holds the given document with the cursor at 0, and the field starts out as the decorations of that document. |
| CodeMirrorTags.UpdateFieldKeepsConsistent | src/code-mirror-editor.jsx:119-124 | The field is recomputed from the new document when it changed, and returned as it was otherwise. Either way it matches the document. |
| CodeMirrorTags.LastTouching | src/code-mirror-editor.jsx:140-145 | `found` ends as the last atomic decoration touching the character before the cursor, or stays null when none does. |
| CodeMirrorTags.DeleteAtomicWidget | src/code-mirror-editor.jsx:129-157 | The command returns true exactly when the selection is empty and an atomic decoration touches the cursor. It then cuts that decoration's text, puts the cursor at its start and recomputes the field. Otherwise it returns false and changes nothing. |
| CodeMirrorTags.DeleteAtomicWidgetKeepsConsistent | src/code-mirror-editor.jsx:146-155 | After a widget is deleted, the field still matches the document. |
| CodeMirrorTags.InsertTag | src/code-mirror-editor.jsx:177-187 | The document becomes the text before the head, the tag text and the text after, with the cursor just after the tag text. |
| CodeMirrorTags.InsertTagKeepsConsistent | src/code-mirror-editor.jsx:177-187 | After an insert, the field still matches the document. |
| UniverTsv.HeadersMembers | src/univer-app.jsx:56 | The headers are exactly the cells of row 0 other than the empty string. |
| UniverTsv.HeadersConcat | src/univer-app.jsx:56 | Header filtering keeps the cells' order. |
| UniverTsv.HeadersWithoutGaps | src/univer-app.jsx:56 | A row 0 without empty strings is its own header list. |
| UniverTsv.HeaderFields | src/univer-app.jsx:56-66 | The header line splits on tabs into the non-empty row-0 cells, in order. |
| UniverTsv.UnquoteRenderCell | src/univer-app.jsx:61 | A quoted string cell reads back as the original string. |
| UniverTsv.RenderCellBreaks | src/univer-app.jsx:61 | Quoting adds no tab and no newline. |
| UniverTsv.RowFields | src/univer-app.jsx:59-63 | A tab-free data row reads back as its first min(row length, header count) cells, in column order. |
| UniverTsv.TsvLines | src/univer-app.jsx:54-67 | For newline-free cells, the output has one line per array row: the header line first, then each row cut to the header count. |
| UniverTsv.MiddleGapCutsRow | src/univer-app.jsx:56-60 | An example of the header count counting non-empty header cells rather than positions: with row 0 `a, "", b` there are two headers, so the data row `x, y, z` comes out as `x\ty`. |
| FlowCanvas.Canvas.constructor | src/App.jsx:6-16 | The initial state is node `'1'` at (250, 5), no edges, not creating and no selector. |
| FlowCanvas.Canvas.MouseDown | src/App.jsx:49-64 | Creating begins, with a temporary edge from node `'1'` to `'temp-target'`. Nothing else changes. |
| FlowCanvas.Canvas.MouseMove | src/App.jsx:67-75 | While creating, only the temporary edge's target position follows the mouse. Otherwise nothing changes. |
| FlowCanvas.Canvas.MouseUp | src/App.jsx:78-88 | While creating, the selector goes to the mouse, creating ends and the temporary edge is dropped. Otherwise nothing changes. |
| FlowCanvas.Canvas.NodeTypeSelect | src/App.jsx:91-101 | The choice is recorded. One node is appended with id count+1, kind `custom` iff chosen, label `自定义节点` or `默认节点` by the same choice, and the selector position. The selector is then hidden. |
| FlowCanvas.NodeKind | src/App.jsx:95 | A new node's type is `custom` exactly when `custom` was chosen, and `default` otherwise. |
| FlowCanvas.ParseDecimalString | src/App.jsx:94 | A node id reads back as the count it was made from, so different counts give different ids. |
| FlowCanvas.Canvas.OnNodesChange | src/App.jsx:104-107 | The changes are appended after the existing nodes. |
| FlowCanvas.Canvas.OnEdgesChange | src/App.jsx:108-111 | The changes are appended after the existing edges. |
| FlowCanvas.Canvas.CreateNode | src/App.jsx:34-124 | Press, drag and release open the selector. The click on a type button in the selector bubbles its mousedown and mouseup to the canvas first, so the one node added sits at the click point. After a non-empty type the selector stays hidden. |
| FlowCanvas.Canvas.PressDragRelease | src/App.jsx:138 | Once a non-empty type was chosen, no mouse gesture shows the selector again. |
| ImmerListDemo.ListDemo.constructor | src/demo-useCallback_useMemoizedFn.jsx:5-8 | The list starts as the single entry {张三, 18}. |
| ImmerListDemo.ListDemo.UpdateLastItemName | src/demo-useCallback_useMemoizedFn.jsx:10-18 | Only the last entry's name changes. |
| ImmerListDemo.ListDemo.UpdateLastItemAge | src/demo-useCallback_useMemoizedFn.jsx:19-32 | Only the last entry's age changes. |
| ImmerListDemo.HundredSteps | src/demo-useCallback_useMemoizedFn.jsx:36-43 | After the hundred steps, the last entry is {李四, 99}, whatever it was before. |
| ImmerListDemo.ListDemo.HandleClick | src/demo-useCallback_useMemoizedFn.jsx:35-44 | The loop changes only the last entry, which ends as {李四, 99}. The length is unchanged. |
| StatusStore.Store.constructor | src/demo-zustand.jsx:4-9 | The store starts with status `idle` and count 0. |
| StatusStore.Store.SetStatus | src/demo-zustand.jsx:6 | The status becomes the argument, and the count is unchanged. |
| StatusStore.Store.Increment | src/demo-zustand.jsx:8 | The count goes up by exactly one, and the status is unchanged. |
| StatusStore.Store.HandleClick | src/demo-zustand.jsx:43-47 | Reading the state right after `increment` gives the incremented count. |

## Left out

- The diff itself (`diffLines` of the `diff` library) is not modelled: the chunk list is an input. The React update that publishes the merged code is left out too.
- `CodeDiffer.LineCount` follows the code. An empty chunk value splits into one empty piece and so counts as zero lines. That case is outside "pieces minus one when the value ends in a newline".
- Nothing on the Monaco side renders anything:
  - the content-widget DOM;
  - the width-measurement retry with `setTimeout`;
  - the injected `<style>` rules.
- `Date.now()` tag ids are a parameter of `MonacoTags.MonacoTagManager.InsertTag` and are not assumed unique. The filter on `tagId` therefore removes every record that shares the id.
- MonacoTags.MonacoTagManager.InsertTag: requires a tag text without line breaks, and every line of the model is kept free of them. A tag text holding a line break would make `executeEdits` split the line and give a multi-line decoration; that case is not modelled. The only caller passes a fixed one-line text.
- Monaco's decoration tracking is not modelled. A decoration's range is stored when it is made and does not move when other edits shift the text. `getDecorationRange` is a map lookup that gives null once the decoration is removed.
- `MonacoTags.EditorCursorLeft`, `MonacoTags.EditorCursorRight`, `MonacoTags.EditorDeleteLeft`, `MonacoTags.EditorDeleteRight`: these stand in for Monaco's built-in commands. They cover the one-character and line-joining cases, not word or surrogate-pair handling.
- The JavaScript regular-expression engine is not modelled. The escaped pattern is a literal search for the tag text, which is what the escaping makes it.
- CodeMirrorTags.DeleteAtomicWidget: offsets are positions of Unicode characters, while CodeMirror counts UTF-16 code units. With the cursor right after a character outside the Basic Multilingual Plane, `between(from - 1, from)` in the source looks back only half of that character. The model looks back the whole character, so it can delete a tag just before it (for example in `<MyComponent />😀` with the cursor at the end) where the source lets the default Backspace delete the character. Documents with such characters are not modelled; the same holds for every CodeMirror offset.
- Tag texts are non-empty (`CodeMirrorTags.FindMatches` requires it). The `componentMap` keys are non-empty constants, and an empty pattern would never advance `lastIndex`.
- CodeMirror's `RangeSetBuilder`, `between` and the widget rendering are left out:
  - `between(from - 1, from)` is modelled as a range that touches that interval;
  - the set the field holds is the corrected, sorted sequence of ranges;
  - the builder raising an error on unsorted input is not modelled.
- `UniverTsv.TsvLines` describes the output line by line only when no cell prints with a newline. A cell holding a newline is neither quoted nor escaped, so it breaks its row over several lines.
- Univer's workbook setup, `getActiveTableData`, the custom Univer app and the clipboard are left out.
- React state is modelled as sequential updates; there is no batching or scheduling. `handleNodeTypeSelect` reads `nodes` directly, as the handler sees it.
- ReactFlow's own change semantics are left out. `onNodesChange` and `onEdgesChange` append the change records.
- Immer drafts are direct record updates.
- `console.log` output and all JSX rendering are left out. The only rendering condition modelled is the selector's visibility (`FlowCanvas.Canvas.SelectorVisible`).
- The pyright WebSocket relay, the language-client wiring files, the Univer plugin setup and the ref/memo demo are not part of this model. They are I/O, process plumbing or rendering over libraries.

## Findings

| source | as written | input that shows it | evidently intended | confidence | as-written member | corrected member |
|---|---|---|---|---|---|---|
| src/code-mirror-editor.jsx:92-112 | Ranges go to `RangeSetBuilder.add` grouped by key: all `<MyComponent />` matches, then all `<AnotherComponent />` matches. The builder needs its ranges in `from` order. | The document `<AnotherComponent /><MyComponent />`: the range at 20 is added before the range at 0. | The same ranges, added in `from` order (`CodeMirrorTags.Decorations`, a merge of the two keys' match lists, which is what the field holds in this model). | not executed | CodeMirrorTags.GroupedNotSorted | CodeMirrorTags.DecorationsSorted |
