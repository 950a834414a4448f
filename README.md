# A verified model of the wysiwyg editor's slash menu, sync engine and file server

The wysiwyg repository is a browser rich-text editor built on an editor
library, with a small file server behind it. This project models its core in
Dafny:

- **Trigger detector** (`SlashMenuPlugin.tsx`, module `SlashMenuPlugin`). On
  every editor update it looks at the text before the cursor. When that text
  ends in a backslash followed by letters a–z, it opens the command menu
  with those letters as the query; otherwise it closes the menu. Only a range
  selection anchored in a text node is considered.
- **Command menu** (`SlashMenu.tsx`, module `SlashMenu`). A fixed catalog of
  four commands (Python, JavaScript, Bash, Link) is filtered by a
  case-insensitive substring test on the label. Clicking a command runs it in
  one update batch. A command first removes the backslash just before the
  cursor (`removeSlashTrigger`), then inserts a code block or a placeholder
  link.
- **Sync engine** (`SyncPlugin.tsx`, module `Sync`). The editor is hydrated
  once from the stored content, guarded by a hydrate-once flag. After that,
  every update that carries dirty nodes restarts a 1000 ms debounce. When the
  quiet period runs out, the last editor state is serialised and saved under
  the instance's file name.
- **File server** (`server.ts`, module `Server`). A map from file names to
  stored pages, with the list, create, update and read handlers. Created and
  updated content is stored inside a page template with the style sheet
  embedded. The embedding follows the string `replace` semantics exactly,
  including the `$` patterns of the replacement string.

The editor library is represented by module `Document`. Its state is a
sequence of nodes in document order plus a selection. The three editor
operations the core calls are the methods of class `Document.Editor`:
splicing a text node, inserting a node at the selection, and replacing the
root's children (clear, then append). Each is specified by a function on
editor states.

Stateful code is modelled as classes whose fields the methods update:

- `SlashMenuPlugin.SlashCommandPlugin` holds the menu's open flag and query.
- `Sync.SyncPlugin` holds the flag, the timer and the saves made.
- `Server.FileStore` holds the file map.
- `Document.Editor` holds the nodes and the selection.

Each method is proved against a function of the old state. The lemmas about
those functions carry the properties.

Behaviours of the code worth knowing:

- The menu commits on a click. The code handles no Tab, Enter, Escape or
  arrow keys and keeps no highlighted index.
- A command removes only the one backslash directly before the cursor. With
  a non-empty query such as `\py`, nothing is removed and the block is
  inserted after the typed text (`SlashMenuPlugin.TriggerRemovalNeedsEmptyQuery`).
- The detector does not check that the selection is collapsed: only the
  anchor is looked at (`SlashMenuPlugin.FocusIgnored`).
- The detector has no escape character: `\\py` opens the menu with query `py`.
- A read returns the stored page with its template. Hydration parses that
  page, and the hydrating update's own notification schedules a save of it
  (`Sync.HydrationSavesLoadedContent`).

## Model

| member | source | states |
|---|---|---|
| Document.Spliced | src/components/editor/plugins/SlashMenu/SlashMenu.tsx:32 | splicing text node `k` replaces the deleted characters by the inserted ones in that node only, keeps every other node, and leaves the selection on live nodes |
| Document.InsertedAtText | src/components/editor/plugins/SlashMenu/SlashMenu.tsx:15 | inserting a node at the selection puts it at the index after the anchor or selected node, and its characters enter the document's text exactly at the cursor position, with all other characters kept in order; see `Document.InsertedAtFrame` for the nodes |
| Document.InsertedAtFrame | src/components/editor/plugins/SlashMenu/SlashMenu.tsx:15 | node by node, inserting keeps every node before the anchor or selected node in place, puts the new node right after it, and shifts every later node by the number added; a text node under a range anchor becomes its two halves at the anchor offset around the new node, any other anchor node stays as it was |
| Document.Editor.constructor | src/components/editor/plugins/SyncPlugin.tsx:13 | the editor starts in the given well-formed state |
| Document.Editor.SpliceText | src/components/editor/plugins/SlashMenu/SlashMenu.tsx:32 | the new state is the spliced state of the old one, with the cursor after the inserted text |
| Document.Editor.ReplaceRoot | src/components/editor/plugins/SyncPlugin.tsx:31-38 | clearing the root and appending the parsed nodes leaves exactly those nodes and no selection |
| Document.Editor.InsertNodes | src/components/editor/plugins/SlashMenu/SlashMenu.tsx:15 | the new state is the old state with the node inserted at the selection |
| SlashMenu.MatchesIgnoresCase | src/components/editor/plugins/SlashMenu/SlashMenu.tsx:57 | labels, and queries, that agree up to the case of their letters give the same match result |
| SlashMenu.IncludesIff | src/components/editor/plugins/SlashMenu/SlashMenu.tsx:57 | the substring test succeeds exactly when the query occurs at some position of the label |
| SlashMenu.FilterSpec | src/components/editor/plugins/SlashMenu/SlashMenu.tsx:56-58 | the filter keeps an entry exactly when it matches the query, as many times as it occurs, and keeps the entries in their original order |
| SlashMenu.VisibleFromCatalog | src/components/editor/plugins/SlashMenu/SlashMenu.tsx:51-58 | the visible options are the catalog entries whose lower-cased label contains the lower-cased query, in catalog order |
| SlashMenu.EmptyQueryShowsAll | src/components/editor/plugins/SlashMenu/SlashMenu.tsx:56-58 | the empty query keeps every entry |
| SlashMenu.VisibleEmptyQuery | src/components/editor/plugins/SlashMenu/SlashMenu.tsx:51-58 | with an empty query the menu shows the whole catalog |
| SlashMenu.MatchesA | src/components/editor/plugins/SlashMenu/SlashMenu.tsx:51-57 | the upper-case query `A` matches JavaScript and Bash but not Python or Link |
| SlashMenu.VisibleExampleA | src/components/editor/plugins/SlashMenu/SlashMenu.tsx:51-58 | the query `A` shows exactly JavaScript then Bash |
| SlashMenu.CatalogActions | src/components/editor/plugins/SlashMenu/SlashMenu.tsx:51-55 | the catalog's actions: Python and Bash insert code blocks with those languages, JavaScript uses the default language `javascript`, Link inserts the link |
| SlashMenu.TriggerRemoved | src/components/editor/plugins/SlashMenu/SlashMenu.tsx:18-34 | the trigger is removed only for a collapsed range selection in a text node with a backslash just before the cursor; then only that character goes and the cursor steps back one; in every other state nothing changes |
| SlashMenu.TriggerRemovedText | src/components/editor/plugins/SlashMenu/SlashMenu.tsx:28-33 | the removal deletes exactly the backslash before the cursor from the document's text and keeps all other characters |
| SlashMenu.CodeBlockInsertedSpec | src/components/editor/plugins/SlashMenu/SlashMenu.tsx:7-16 | after the trigger removal, a code block with the requested or default language is inserted exactly when the selection is a range; it adds no characters, and every other node is kept in order, with a text node under the cursor split into its two halves around the block; otherwise the state is left as the removal left it |
| SlashMenu.LinkInsertedSpec | src/components/editor/plugins/SlashMenu/SlashMenu.tsx:37-42 | after the trigger removal, a link to `https://` with text `link` is inserted under any existing selection, node selections included, and `link` enters the text at the insertion point; every other node is kept in order, with a text node under the cursor split into its two halves around the link |
| SlashMenu.RemoveSlashTrigger | src/components/editor/plugins/SlashMenu/SlashMenu.tsx:18-34 | the editor's new state is the trigger-removed old state |
| SlashMenu.InsertCodeBlock | src/components/editor/plugins/SlashMenu/SlashMenu.tsx:7-16 | the editor's new state is the code-block-inserted old state |
| SlashMenu.InsertLink | src/components/editor/plugins/SlashMenu/SlashMenu.tsx:37-42 | the editor's new state is the link-inserted old state |
| SlashMenu.OnClick | src/components/editor/plugins/SlashMenu/SlashMenu.tsx:75-84 | clicking the `index`-th visible option runs that option's action on the editor |
| SlashMenuPlugin.TrailingLetters | src/components/editor/plugins/SlashMenu/SlashMenuPlugin.tsx:34 | the result is the longest run of letters a-z at the end of the text: all letters, and the character before the run is not a letter |
| SlashMenuPlugin.MatchTrigger | src/components/editor/plugins/SlashMenu/SlashMenuPlugin.tsx:34-38 | the pattern matches exactly when some backslash is followed only by letters a-z up to the end, and the captured group is those letters |
| SlashMenuPlugin.Detect | src/components/editor/plugins/SlashMenu/SlashMenuPlugin.tsx:16-43 | a non-range selection or an anchor outside a text node closes the menu; otherwise the menu is open exactly when the text before the anchor offset matches, and the query is all letters |
| SlashMenuPlugin.DetectQuery | src/components/editor/plugins/SlashMenu/SlashMenuPlugin.tsx:30-38 | the query is exactly the text between the matching backslash and the cursor |
| SlashMenuPlugin.AfterCursorIgnored | src/components/editor/plugins/SlashMenu/SlashMenuPlugin.tsx:30-32 | text after the cursor never changes the outcome |
| SlashMenuPlugin.FocusIgnored | src/components/editor/plugins/SlashMenu/SlashMenuPlugin.tsx:24-31 | only the anchor matters: moving the focus does not change the outcome |
| SlashMenuPlugin.PatternExamplesOpen | src/components/editor/plugins/SlashMenu/SlashMenuPlugin.tsx:34 | `\`, `x\py`, `\\` and `\\py` match, with queries empty, `py`, empty and `py` |
| SlashMenuPlugin.PatternExamplesClosed | src/components/editor/plugins/SlashMenu/SlashMenuPlugin.tsx:34 | `\Py`, `\p y`, `\py2` and `py` do not match |
| SlashMenuPlugin.TriggerRemovalNeedsEmptyQuery | src/components/editor/plugins/SlashMenu/SlashMenu.tsx:31-33 | with an open menu and a non-empty query a command removes nothing; with an empty query and a collapsed cursor it removes the backslash |
| SlashMenuPlugin.SlashCommandPlugin.constructor | src/components/editor/plugins/SlashMenu/SlashMenuPlugin.tsx:12-13 | the menu starts closed with an empty query |
| SlashMenuPlugin.SlashCommandPlugin.OnUpdate | src/components/editor/plugins/SlashMenu/SlashMenuPlugin.tsx:16-43 | the open flag becomes the detector's verdict; the query becomes the captured letters on a match and is kept otherwise |
| SlashMenuPlugin.SlashCommandPlugin.Render | src/components/editor/plugins/SlashMenu/SlashMenuPlugin.tsx:46-50 | the menu is rendered exactly when open, with the options visible for the current query |
| Sync.UpdateThenWait | src/components/editor/plugins/SyncPlugin.tsx:43-55 | an update before hydration, or one without dirty nodes, is invisible; after hydration a dirty update followed by a wait of at least 1000 ms saves exactly that update's state, whatever was pending, and a shorter wait leaves it pending |
| Sync.Hydrate | src/components/editor/plugins/SyncPlugin.tsx:27-41 | hydration sets the flag, makes the editor hold the nodes parsed from the content wrapped in a body element, and schedules a save of them one quiet period later |
| Sync.StepInv | src/components/editor/plugins/SyncPlugin.tsx:19-55 | every event keeps the invariant that a pending save exists only after hydration and lies in the future, and never clears the flag |
| Sync.InitializedStays | src/components/editor/plugins/SyncPlugin.tsx:39 | once set, the hydrate-once flag stays set over any sequence of events |
| Sync.AtMostOneHydration | src/components/editor/plugins/SyncPlugin.tsx:27-41 | any sequence of events hydrates the editor at most once, and never after the flag is set |
| Sync.NoSaveBeforeHydration | src/components/editor/plugins/SyncPlugin.tsx:43-51 | until present content arrives, no update or elapsed time issues a save or sets the flag |
| Sync.HydrationSavesLoadedContent | src/components/editor/plugins/SyncPlugin.tsx:19-41 | one quiet period after content arrives, the serialised parsed content is saved under the file name |
| Sync.DebounceCollapses | src/components/editor/plugins/SyncPlugin.tsx:19-25 | a burst of updates, each with its own dirty node sets, whose gaps are shorter than 1000 ms, followed by a gap of at least 1000 ms, issues exactly one save, of the last state |
| Sync.SavesUseFileName | src/components/editor/plugins/SyncPlugin.tsx:19-25 | every save is keyed by the instance's file name |
| Sync.SyncPlugin.constructor | src/components/editor/plugins/SyncPlugin.tsx:12-17 | a new instance is not hydrated, has no pending save and has saved nothing |
| Sync.SyncPlugin.OnContent | src/components/editor/plugins/SyncPlugin.tsx:27-41 | the hydration effect performs exactly one content-arrival step of the event model |
| Sync.SyncPlugin.OnUpdate | src/components/editor/plugins/SyncPlugin.tsx:43-55 | the listener performs exactly one update step of the event model |
| Sync.SyncPlugin.DebouncedSave | src/components/editor/plugins/SyncPlugin.tsx:19-25 | calling the debounced save remembers the state and restarts the quiet period |
| Sync.SyncPlugin.Elapse | src/components/editor/plugins/SyncPlugin.tsx:19-25 | letting time pass performs exactly one elapsed-time step: an expired quiet period issues the save |
| Server.FirstIndex | server.ts:23-25 | the search finds the first occurrence of the placeholder, or reports that there is none |
| Server.SubstitutionVerbatim | server.ts:23-25 | a replacement without `$` is inserted unchanged |
| Server.ReplaceFirstAbsent | server.ts:23-25 | where the placeholder occurs nowhere, the replacement leaves the string unchanged |
| Server.ReplaceFirstAt | server.ts:23-25 | where the placeholder first occurs at position i, a `$`-free replacement takes the place of exactly that occurrence and the text around it is kept |
| Server.ReplaceFirstVerbatim | server.ts:23-25 | a `$`-free replacement is spliced in place of the first occurrence |
| Server.StoredPageWrapsContent | server.ts:19-26 | for content without `$`, the stored page is the style-sheet-filled template with the content at the HTML slot, or without the content when there is no slot |
| Server.StoredPageDiffersFromContent | server.ts:19-26 | for content without `$` and a template larger than its slot, the stored page is never the bare content |
| Server.DollarAmpersandKeepsPlaceholder | server.ts:23-25 | a replacement of exactly `$&` leaves the string unchanged |
| Server.FileStore.constructor | server.ts:14-17 | the store starts with the given template, style sheet and files |
| Server.FileStore.List | server.ts:40-47 | listing returns the names of the stored files |
| Server.FileStore.Create | server.ts:49-68 | a missing or empty name or content gives 400 `filename and content are required`; a taken name gives 400 `File already exists`; both store nothing; otherwise only the new file is added, holding the built page |
| Server.FileStore.Update | server.ts:70-90 | a missing or empty content gives 400 `content is required`; an unknown name gives 404 `File does not exist`; both store nothing; otherwise only that file changes, to the built page |
| Server.FileStore.Read | server.ts:92-104 | reading returns the stored text verbatim, or 404 `File does not exist` for an unknown name |

## Left out

- The editor library's internals are not part of this model. The node tree is
  flattened to a sequence of nodes, so paragraphs and other block elements
  are not modelled. The HTML parser and serializer enter `Sync.Config` as
  functions, and no round trip between them is claimed.
- Document.InsertedAt: the placement follows the library's documented
  behaviour in outline only. Inserting over a non-collapsed range does not
  delete the range first, and block-level nodes are not lifted out of
  paragraphs.
- Document.Editor.ReplaceRoot: the selection after hydration is modelled as
  none, because the old anchor no longer exists. The library may instead
  place one.
- SlashMenu.Lower: lower-casing is ASCII only. The catalog labels and the
  detector's queries are ASCII letters, but a query typed with other
  characters is not case-folded as the browser would.
- Menu positioning (`SlashMenu.tsx` lines 60-71) and all rendering markup are
  left out: they affect only where the menu is drawn.
- Real time, the asynchronous mutation call, response ordering and
  re-fetching by the query cache are left out. Time is a logical clock, a
  save is recorded when it is issued, and a save's completion is not
  modelled.
- React's effect scheduling is abstracted: the hydration effect runs when
  content arrives, and the hydrating update's notification reaches the
  listener at once.
- The `console.log` of the saved HTML is left out.
- File-system errors (the 500 responses), the directory creation at start-up
  and `path.join` are left out. File names are map keys as given.
- The template and style sheet files are read at start-up and passed to the
  store as strings. The source rereads them on every write.
- Request bodies are modelled as optional strings. Non-string JSON values are
  not modelled.
- Express routing, CORS and the listening port are left out.
- Server.FileStore.List: the listing is a set of names. The directory
  listing is an array, and its order is not modelled.
- Text offsets: the editor's offsets and its `text[offset - 1]` lookup count
  UTF-16 code units, while the model's strings count Unicode scalar values.
  A character outside the Basic Multilingual Plane, such as an emoji, is two
  positions in the editor and one in the model. Lone surrogates cannot be
  represented.
- ToolbarPlugin.tsx, html.ts, App.tsx and Edit.tsx are not part of this model.
