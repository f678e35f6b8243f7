# kod core, modelled in Dafny

kod is a modal terminal text editor written in Rust. This project models the sequential core of
the editor and proves what that core promises. The core covers:

- the operational-transform edit history: transactions of Retain/Delete/Insert operations with
  `change`, `compose`, `invert` and `apply`, and a revision tree with undo and redo;
- documents with a pending transaction, a saved revision and hard wrapping of long lines;
- selections and cursors, editable text with clamped motion, word segmentation and the edit actions
  bound to keys;
- the language registry (by path glob, shebang interpreter or injection name) and the
  bookkeeping of syntax layers: edits generated from transactions, byte ranges shifted under
  edits, layers deduplicated and pruned, injection ranges intersected, captures mapped to
  theme scopes, highlight events ordered;
- the small editor structures: registers, text-input history, the key-chord machine, smart-case
  search, the component stack, the file browser, incremental ids and the rope chunk cursor;
- UI arithmetic and cell buffers: rectangles, scrolling, borders, panes and gutters, style
  patches, theme lookup and colour parsing, the cell buffer and its diff, modal buttons, alert
  word wrapping and highlight style stacking.

Text is modelled as bytes (`Text.Byte`). Documents that the cursor code works on are sequences
of lines, each a sequence of graphemes ending in a line feed, the last line included; a rope whose last line has no line feed is not modelled there (see "Left out"). A grapheme carries its bytes, its
display width and its Unicode category, because those come from segmentation and width tables
that the editor does not own. Glob matching, regular-expression search, tree-sitter parsing and
queries, and the clock are parameters of the operations that use them. Panics become `None`
results or the `requires` that the calling code guarantees. The panics that the byte model cannot
reach are listed under "Left out".

src/commands/actions.rs is written against another API than src/history.rs and src/document.rs (a three-field `Transaction::change`, `set_cursor`, `doc.modified = true`, `pane.view.text_cursor_x`); the model reconciles the actions with the API of src/document.rs and routes every edit they make through `Documents.Document.ApplyChanges`.

Where the source updates an object in place, the model is a class with `modifies` clauses. Its
methods are proved against specification functions, and the laws are lemmas about those
functions. Examples are `Histories.History`, `Documents.Document`, `EditableTexts.EditableText`,
`Buffers.Buffer`, `FileBrowser.Files` and `SyntaxLayers.Syntax`. Where the source computes
values, the model uses datatypes and functions.

| module (file) | source |
|---|---|
| `Base` (base.dfy), `Text` (text.dfy) | shared helpers; bytes, lines, widths |
| `Ids` (ids.dfy) | src/lib.rs |
| `RopeCursors` (rope_cursor.dfy) | src/rope.rs |
| `Rects` (rect.dfy) | src/ui.rs |
| `Scrolls` (scroll.dfy) | src/ui/scroll.rs |
| `BorderBoxes` (border_box.dfy) | src/ui/border_box.rs |
| `Panes` (panes.dfy), `Gutters` (gutter.dfy) | src/panes.rs, src/gutter.rs |
| `Styles` (style.dfy), `Themes` (theme.dfy) | src/ui/style.rs, src/ui/theme.rs |
| `Buffers` (buffer.dfy) | src/ui/buffer.rs |
| `Keys` (keys.dfy), `Modals` (modal.dfy), `Alerts` (alert.dfy) | key codes; src/ui/modal.rs; src/components/alert.rs |
| `Highlights` (highlight.dfy), `Views` (view.dfy) | highlight events; src/view.rs |
| `Selection` (selection.dfy) | src/selection.rs |
| `Transactions`, `TransactionLaws`, `Changes` (transaction.dfy, transaction_laws.dfy, change.dfy) | src/history.rs, transactions |
| `Histories` (history.dfy) | src/history.rs, revision tree |
| `EditableTexts` (editable_text.dfy), `TextObjects` (textobject.dfy) | src/editable_text.rs, src/textobject.rs |
| `TextInputs` (text_input.dfy) | src/ui/text_input.rs |
| `Registers` (registers.dfy), `Keymaps` (keymap.dfy), `Compositors` (compositor.dfy) | src/registers.rs, src/keymap.rs, src/compositor.rs |
| `Searches` (search.dfy) | src/search.rs |
| `Documents` (document.dfy) | src/document.rs |
| `Actions` (actions.dfy) | src/commands/actions.rs |
| `Languages` (language.dfy) | src/language.rs and the `SHEBANG` pattern of src/language/syntax.rs |
| `SyntaxEdits`, `SyntaxLayers`, `HighlightIter`, `Queries` (syntax_edits.dfy, syntax_layers.dfy, highlight_iter.dfy, queries.dfy) | src/language/syntax.rs |
| `FileBrowser` (files.dfy) | src/components/files.rs |

Notes on what the code does:

- An injection name is resolved by the longest regex match, kept only when strictly longer
  (`>`), so the earliest language wins a tie (src/language.rs).
- The edit actions modelled are those of src/commands/actions.rs. The older src/actions.rs is not
  part of this model.
- Loading a document stores the result of hard wrapping in the document's `readonly` flag. That
  overwrites the flag the file system reported (src/document.rs:92-113).
- src/ui/text_input.rs calls selection helpers (`byte_offset_at_head`, `grapheme_at_head`) that
  src/selection.rs does not define. They are modelled as the head's Insert-mode byte offset
  (`Selection.CursorByteOffset`) and the grapheme index at the head's column.
- The shebang of a file is matched by the anchored `SHEBANG` pattern at load time. For an
  injection marker of kind Shebang, the marker text is looked up directly.
- `read_query` expands `; inherits:` lines with no cycle protection. The model makes the
  recursion explicit with a fuel bound, and `Queries` proves that a self-inheriting query never
  finishes.

## Model

| member | source | states |
|---|---|---|
| `Ids.Default` | src/lib.rs:6-10 | The default id is 1: a valid id no larger than any other valid id. |
| `Ids.Next` | src/lib.rs:14-16 | `next` gives a valid id that is the least one above its argument. |
| `Ids.IssuedIncreasing` | src/lib.rs:4-23 | `n` successive `advance` calls return `n` ids that are non-zero, never below the start, and strictly increasing. |
| `Ids.IdCounter.constructor` | src/lib.rs:6-10 | A fresh counter holds the default id. |
| `Ids.IdCounter.Advance` | src/lib.rs:19-23 | `advance` returns the stored id and stores its successor, which is larger and still valid. |
| `RopeCursors.OffsetIsPrefixLen` | src/rope.rs:13-16 | The offset recorded for chunk k is the total length of the chunks before it. |
| `RopeCursors.RopeCursor.constructor` | src/rope.rs:9-21 | `new` records every chunk with the total length of the chunks before it and starts on the first chunk. |
| `RopeCursors.RopeCursor.Chunk` | src/rope.rs:25-28 | `chunk` returns the bytes of the current chunk of the rope. |
| `RopeCursors.RopeCursor.Offset` | src/rope.rs:52-54 | `offset` is the number of rope bytes before the current chunk. |
| `RopeCursors.RopeCursor.Advance` | src/rope.rs:30-37 | `advance` moves to the next chunk and reports true exactly when one exists; otherwise nothing changes. |
| `RopeCursors.RopeCursor.Backtrack` | src/rope.rs:39-46 | `backtrack` moves to the previous chunk and reports true exactly when the cursor was not on the first one. |
| `RopeCursors.RopeCursor.TotalBytes` | src/rope.rs:48-50 | `total_bytes` is the length of the whole rope. |
| `Rects.Area` | src/ui.rs:25-27 | `area` is zero exactly when a side is zero, and otherwise at least each side. |
| `Rects.Right` | src/ui.rs:75-77 | `right` lies `width` columns past `left`. |
| `Rects.Bottom` | src/ui.rs:79-81 | `bottom` lies `height` rows below `top`. |
| `Rects.ClipBottom` | src/ui.rs:29-34 | `clip_bottom` keeps the corner and the width and removes `h` rows, saturating at zero height. |
| `Rects.ClipRight` | src/ui.rs:60-65 | `clip_right` keeps the corner and the height and removes `w` columns, saturating at zero width. |
| `Rects.ClipTop` | src/ui.rs:36-46 | `clip_top` moves the top down by at most the height and keeps the bottom edge. |
| `Rects.ClipLeft` | src/ui.rs:48-58 | `clip_left` moves the left edge right by at most the width and keeps the right edge. |
| `Rects.FromSize` | src/ui.rs:85-87 | Converting a `(width, height)` pair gives a rectangle of that size at the origin. |
| `Rects.ClipShrinksArea` | src/ui.rs:29-65 | No clip grows the area of a rectangle. |
| `Scrolls.AdjustScroll` | src/ui/scroll.rs:3-13 | `adjust_scroll` leaves the scroll alone exactly when the point lies between the margins. Past the bottom margin, the point ends on the bottom margin. Before the top margin, the scroll starts `offset` above the point, or at zero. |
| `Scrolls.AdjustSettles` | src/ui/scroll.rs:3-13 | Once adjusted, adjusting again from the new scroll changes nothing. |
| `Scrolls.OffsetFor` | src/ui/scroll.rs:48-51 | The margin `adjust_offset` picks never exceeds the limit, and two margins plus a row fit in the dimension. |
| `Scrolls.Scroll.constructor` | src/ui/scroll.rs:15-25 | The default scroll is all zero. |
| `Scrolls.Scroll.EnsurePointIsVisible` | src/ui/scroll.rs:30-44 | Each axis is scrolled by `adjust_scroll`. The vertical margin is cut to the lines below the point when a maximum is given. The screen cursor is the area's corner plus the point's distance from the scroll. |
| `Scrolls.Scroll.AdjustOffset` | src/ui/scroll.rs:48-51 | `adjust_offset` sets both margins from the area and the limits and changes nothing else. |
| `Scrolls.AdjustedPointVisible` | src/ui/scroll.rs:30-51 | After the margins are set from an area at least one column wide, the scrolled view contains the point. |
| `BorderBoxes.Inner` | src/ui/border_box.rs:36-53 | `inner` removes one column per side border and one row each for the top (border or title) and the bottom border, all saturating, and stays inside the area. |
| `BorderBoxes.ShrinkLeft` | src/ui/border_box.rs:38-41 | With a left border, the left edge moves right by one but never past the right edge, and the right edge stays. |
| `BorderBoxes.ShrinkTop` | src/ui/border_box.rs:42-45 | With a top border or a title, the top edge moves down by one but never past the bottom edge, and the bottom edge stays. |
| `BorderBoxes.ShrinkRight` | src/ui/border_box.rs:46-48 | With a right border, the width loses one column, saturating, and the corner stays. |
| `BorderBoxes.ShrinkBottom` | src/ui/border_box.rs:49-51 | With a bottom border, the height loses one row, saturating, and the corner stays. |
| `BorderBoxes.Corners` | src/ui/border_box.rs:88-100 | A corner is drawn exactly when both of its sides have a border. |
| `BorderBoxes.TitleColumn` | src/ui/border_box.rs:102-105 | The title starts at the left edge, or one column to the right of it exactly when there is a left border. |
| `Gutters.ILog10` | src/gutter.rs:8-12 | `ilog10(n)` is the k with 10^k <= n < 10^(k+1). |
| `Gutters.GutterWidth` | src/gutter.rs:8-16 | The gutter is at least six columns wide and holds every digit of the line count plus the padding. |
| `Gutters.Pow10Mono` | src/gutter.rs:8-16 | Powers of ten grow with the exponent, so more lines never need a narrower gutter. |
| `Gutters.GutterAndDocumentAreas` | src/gutter.rs:7-26 | The gutter takes the left columns (at most the gutter width) without the bottom row. The document takes exactly the remaining columns, at full height, up to the right edge. |
| `Gutters.ComputeOffset` | src/gutter.rs:28-33 | The margins are those of `adjust_offset` capped at six columns and four rows. |
| `Gutters.LabelFor` | src/gutter.rs:37-70 | Labels are absolute exactly when the pane is inactive or in Insert or Replace mode. Absolute labels are highlighted on the cursor's line. In Normal mode the cursor's row shows its line number and any other row its positive distance from the cursor's row. |
| `Gutters.Render` | src/gutter.rs:72-91 | Row y of the gutter shows line y + scroll + 1. Rows are filled for the area's height plus one, stopping after the document's last line. |
| `Panes.NewPane` | src/panes.rs:120-129 | A new pane has the default id and document, a vertical layout and no parent. |
| `Panes.SplitPane` | src/panes.rs:131-156 | After a split, the old pane keeps its id, document, parent and corner and takes the new layout. The new pane gets the given id, the same document and layout, and the old pane as its parent. |
| `Panes.VerticalSplitWidths` | src/panes.rs:133-138 | A vertical split of width w gives ceil(w/2)-1 columns to the old pane and floor(w/2) to the new one. The column between them is left for the border, and the new pane ends at the old right edge. |
| `Panes.HorizontalSplitHeights` | src/panes.rs:139-143 | A horizontal split divides the rows in the same way, leaving one row for the border. |
| `Panes.EmptySplit` | src/panes.rs:133-138 | Splitting a zero-width pane leaves both panes zero-width. |
| `Panes.PaneSet.constructor` | src/panes.rs:71-83 | `Panes::new` holds one pane under the default id, focuses it, and sets the next id to the one after. |
| `Panes.PaneSet.Split` | src/panes.rs:94-100 | The focused pane is split; the new pane goes under the next id, which no pane held before, and gets the focus. The next id advances, and there is exactly one more pane. |
| `Styles.AllFlags` | src/ui/style.rs:46-58 | `Modifier::all()` contains each of the eight flags. |
| `Styles.ParseModifier` | src/ui/style.rs:63-75 | Parsing a modifier name gives its flag or an error. |
| `Styles.ParseModifierExactly` | src/ui/style.rs:63-75 | Exactly the eight names parse, each to its own distinct flag, and every other string is an error. |
| `Styles.ParseUnderline` | src/ui/style.rs:33-43 | Parsing an underline name gives its style or an error. |
| `Styles.ParseUnderlineExactly` | src/ui/style.rs:33-43 | Exactly the six underline names parse, and every other string is an error. |
| `Styles.Default` | src/ui/style.rs:88-99 | The default style sets no colour, no underline and no flag. |
| `Styles.ResetStyle` | src/ui/style.rs:102-111 | The reset style has reset colours and switches every flag off. |
| `Styles.AddModifier` | src/ui/style.rs:133-137 | After `add_modifier`, the given flags are switched on and no longer switched off; other flags are unchanged. |
| `Styles.RemoveModifier` | src/ui/style.rs:139-143 | After `remove_modifier`, the given flags are switched off and no longer switched on; other flags are unchanged. |
| `Styles.Patch` | src/ui/style.rs:145-157 | Each field the patch sets wins. A flag the patch switches on is on, one it switches off is off, and every other flag keeps its state. |
| `Styles.PatchDisjoint` | src/ui/style.rs:145-157 | If neither style switches a flag both on and off, the patched style does not either. |
| `Styles.PatchIdentity` | src/ui/style.rs:88-99 | The default style is a left and a right identity of `patch`. |
| `Styles.PatchAssociative` | src/ui/style.rs:145-157 | `patch` is associative. |
| `Styles.PatchReset` | src/ui/style.rs:102-111 | Patching any style with the reset style resets both colours and switches every flag off. |
| `Themes.HexByte` | src/ui/theme.rs:76-82 | Two hexadecimal digits give the byte they spell; a second character that is not a hexadecimal digit is an error. |
| `Themes.ParseU8` | src/ui/theme.rs:83-85 | A decimal byte parses only from a non-empty string. |
| `Themes.HexColor` | src/ui/theme.rs:76-82 | A `#rrggbb` string (not a colour name) gives the RGB colour with those channels. |
| `Themes.DecimalColor` | src/ui/theme.rs:83-85 | A decimal string with a value up to 255 gives that ANSI colour. |
| `Themes.BaseNameColor` | src/ui/theme.rs:58-75 | A base colour name resolves through the palette when the palette has it, and to the builtin colour otherwise. |
| `Themes.Resolve` | src/ui/theme.rs:57-90 | What `color` gives for a string: a base colour, a hex or decimal colour, a palette entry followed, or divergence and the panic. `Themes.HexPaletteResolves`, `Themes.SelfReferenceDiverges` and `Themes.UnknownName` are stated about it. |
| `Themes.UnknownName` | src/ui/theme.rs:86 | A name that is not a colour and not in the palette panics. |
| `Themes.SelfReferenceDiverges` | src/ui/theme.rs:86 | A palette entry that names itself never resolves: `color` recurses without end. |
| `Themes.HexPaletteResolves` | src/ui/theme.rs:57-88 | When every palette value is a `#rrggbb` string, as in the builtin palette, every palette name resolves to an RGB colour. |
| `Themes.LastDot` | src/ui/theme.rs:103 | Finds the last `.` in a scope: there is no dot after the one found, and there is none at all when nothing is found. |
| `Themes.Broader` | src/ui/theme.rs:103 | `rsplit_once('.')` keeps a strictly shorter part, which is followed by a dot in the scope. |
| `Themes.Fallbacks` | src/ui/theme.rs:102-105 | The scopes tried start with the full scope. |
| `Themes.FallbacksArePrefixes` | src/ui/theme.rs:99-105 | Every scope tried after the first is a prefix of the scope that ends right before a dot. |
| `Themes.FallbacksShorten` | src/ui/theme.rs:99-105 | The scopes tried get strictly shorter. |
| `Themes.FallbacksEndUndotted` | src/ui/theme.rs:99-105 | The last scope tried has no dot left. |
| `Themes.TryGet` | src/ui/theme.rs:102-105 | `try_get`'s scope fallback: the scope's style, or the broader scope's; `Themes.TryGetFirst` characterises it. |
| `Themes.TryGetFirst` | src/ui/theme.rs:102-105 | `try_get` finds nothing exactly when no scope tried is defined. Otherwise it returns the style of the first one that is. |
| `Themes.Get` | src/ui/theme.rs:95-97 | `get` is the style `try_get` finds, or the default style. |
| `Themes.BuildTheme` | src/ui/theme.rs:34-47 | The built theme defines exactly the scopes of the macro's entries. |
| `Themes.BuildThemeKeeps` | src/ui/theme.rs:40-43 | With distinct scopes, as the macro checks in debug builds, each entry keeps its own style. |
| `Buffers.SetStyle` | src/ui/buffer.rs:56-73 | Each colour and underline the style sets replaces the cell's. The style's added flags are switched on, then its removed flags off. |
| `Buffers.SetStylePatch` | src/ui/buffer.rs:56-73 | Setting two styles one after the other is the same as setting their `patch`. |
| `Buffers.SetDefaultStyle` | src/ui/buffer.rs:56-73 | Setting the default style leaves a cell unchanged. |
| `Buffers.Placements` | src/ui/buffer.rs:166-187 | `put_truncated_str` writes graphemes from column x and stops at the right edge. A grapheme that lands in the last column while more follow is replaced by an ellipsis. |
| `Buffers.PlacementsInside` | src/ui/buffer.rs:171-183 | Every write lies between the start column and the right edge and holds its grapheme; the exception is the last column, which gets an ellipsis when more graphemes follow. |
| `Buffers.PlacementsAdvance` | src/ui/buffer.rs:185 | Columns never go back, and each grapheme moves the next column on by its width. |
| `Buffers.PutAllOnlyPlaced` | src/ui/buffer.rs:181-183 | Writing a string changes only the cells it writes to. |
| `Buffers.DiffFrom` | src/ui/buffer.rs:119-141 | The indices `diff` patches, in increasing order within the frame. `Buffers.DiffIncreasing`, `Buffers.DiffIdentical`, `Buffers.DiffCoversChanges`, `Buffers.DiffRepaintsAfterWide` and `Buffers.DiffSkipsCovered` are stated about it. |
| `Buffers.DiffIncreasing` | src/ui/buffer.rs:119-141 | `diff` patches each cell at most once, in increasing index order. |
| `Buffers.DiffIdentical` | src/ui/buffer.rs:126-131 | Two identical frames of narrow symbols give no patches. |
| `Buffers.DiffCoversChanges` | src/ui/buffer.rs:126-138 | Every changed cell is patched, unless it is the second column of a wide grapheme in the new frame. |
| `Buffers.DiffRepaintsAfterWide` | src/ui/buffer.rs:136-137 | The cell after a wide grapheme that the new frame replaced with a narrow one is patched, whether or not it changed. |
| `Buffers.DiffSkipsCovered` | src/ui/buffer.rs:133-134 | The cell right after a wide grapheme of the new frame is never patched. |
| `Buffers.Buffer.constructor` | src/ui/buffer.rs:100-106 | A new buffer holds one empty cell per cell of the rectangle. |
| `Buffers.Buffer.Resize` | src/ui/buffer.rs:108-111 | `resize` keeps the cells up to the new size and adds empty cells beyond the old one. |
| `Buffers.Buffer.Reset` | src/ui/buffer.rs:113-117 | `reset` empties every cell and keeps the size. |
| `Buffers.Buffer.GetSymbol` | src/ui/buffer.rs:143-153 | `get_symbol` returns the symbol of the cell at index width*y + x, or nothing past the last cell. |
| `Buffers.Buffer.PutSymbol` | src/ui/buffer.rs:155-160 | `put_symbol` sets the symbol and style of the cell at index width*y + x and changes nothing else. A position past the last cell is ignored; a column past the width is not checked. |
| `Buffers.Buffer.PutTruncatedStr` | src/ui/buffer.rs:166-187 | The cells get exactly the writes `Placements` lays out, up to the smaller of the given right edge and the buffer's. |
| `Buffers.Buffer.Clear` | src/ui/buffer.rs:200-209 | `clear` empties every buffer cell inside the area and changes no other cell. |
| `Buffers.Buffer.Diff` | src/ui/buffer.rs:119-141 | `diff` returns one patch per index `DiffFrom` selects, each at that cell's column and row and carrying the new cell. |
| `Buffers.Buffer.ClearColumn` | src/ui/buffer.rs:202-207 | The inner loop empties every cell of column `x` inside the area. Every other cell keeps its content, and the size stays. |
| `Modals.Count` | src/ui/modal.rs:63-69 | Each button set has one to three buttons. |
| `Modals.ToIndex` | src/ui/modal.rs:32-38 | A button's index is its position in its row. |
| `Modals.FromIndex` | src/ui/modal.rs:40-46 | `from_index` stays in the same button set; an index past the last button gives the last one. |
| `Modals.FromToIndex` | src/ui/modal.rs:32-46 | Every button is recovered from its own index. |
| `Modals.FromKey` | src/ui/modal.rs:48-61 | A hotkey stands for a button of the same set, and only Esc and character keys are hotkeys. |
| `Modals.EscapeAlwaysChooses` | src/ui/modal.rs:48-61 | Esc picks a button in every set, so every dialog can be dismissed. |
| `Modals.BoxWidth` | src/ui/modal.rs:239-243 | The box is at most 60 columns and 80% of the area wide. It is at least 21 when the area allows, and exactly the body or title width plus padding when that fits both bounds. |
| `Modals.Modal.constructor` | src/ui/modal.rs:224-231 | A new modal keeps its title and body and chooses the first button of its set. |
| `Modals.Modal.HandleChoice` | src/ui/modal.rs:288-312 | Right or `l` selects the next button and Left or `h` the previous one, both wrapping around, and neither confirms. Enter confirms the current button. A hotkey chooses its button and confirms. Any other key changes nothing. |
| `Modals.RightThenLeft` | src/ui/modal.rs:290-301 | Moving right and then left returns to the same button. |
| `Modals.RightCycles` | src/ui/modal.rs:290-295 | k presses of Right advance the index by k modulo the number of buttons. |
| `Modals.IndexDetermines` | src/ui/modal.rs:32-46 | A button is determined by its set and its index. |
| `Modals.RightFullCycle` | src/ui/modal.rs:290-295 | Pressing Right once per button returns to the starting button. |
| `Alerts.Groups` | src/components/alert.rs:30-44 | A body wider than the line is wrapped into at least one line. |
| `Alerts.Step` | src/components/alert.rs:30-44 | One word of the wrapping loop: appended to the current line when it fits, otherwise starting a new line. |
| `Alerts.WrapFrom` | src/components/alert.rs:30-44 | The wrapping loop over the remaining words; `Alerts.WrapKeepsWords` and `Alerts.DonePrefix` are stated about it. |
| `Alerts.Wrapped` | src/components/alert.rs:20-47 | An alert body always breaks into at least one line. |
| `Alerts.BreakIntoLinesAsWritten` | src/components/alert.rs:20-47 | As written, `break_into_lines` divides by `max_width` to reserve capacity, so it panics exactly when the body is wider than a zero `max_width`. Otherwise it gives the wrapped lines. |
| `Alerts.BoxWidth` | src/components/alert.rs:52-53 | The box width is the smallest of 55, 80% of the area, and the body or title width plus padding. |
| `Alerts.NarrowAlertPanics` | src/components/alert.rs:52-55 | On an area at most six columns wide, an alert with a non-empty body makes `break_into_lines` panic. |
| `Alerts.BreakIntoLines` | src/components/alert.rs:20-47 | Without the capacity division, the body stays one line when it fits, and is otherwise wrapped greedily on spaces, for every width. |
| `Alerts.WrapKeepsWords` | src/components/alert.rs:30-44 | Each step of the loop keeps the words in order: finished lines, then the current line, then the words still to come. |
| `Alerts.GroupsKeepWords` | src/components/alert.rs:30-44 | The wrapped lines hold exactly the words of the body, in order. |
| `Alerts.GroupsFit` | src/components/alert.rs:32-41 | Every line fits the width, except a line holding a single word too wide on its own (and the empty first line such a word leaves behind). |
| `Alerts.WideFirstWordLeavesEmptyLine` | src/components/alert.rs:32-41 | A first word wider than the line does not fit the empty line either, so the wrapped body starts with an empty line. |
| `Alerts.DonePrefix` | src/components/alert.rs:36-41 | Lines once finished are never changed. |
| `Alerts.WrappedText` | src/components/alert.rs:20-47 | A body that fits stays one line. Otherwise the lines together are the body's words, each followed by a space. |
| `Keymaps.BuildKeymap` | src/keymap.rs:16-42 | Building a keymap from a binding list fails exactly when some key is bound twice. Otherwise the keymap binds every listed key to its action. |
| `Keymaps.Step` | src/keymap.rs:67-101 | One step of the chord automaton that `get` runs; `Keymaps.ChordResolves`, `Keymaps.ChordTail` and `Keymaps.StepKeepsChordPrefix` are stated about it. |
| `Keymaps.FindPathAppend` | src/keymap.rs:111-122 | Following a path `p + q` is the same as following `p` and then `q` from where `p` ends. A dead end on `p` stays a dead end. |
| `Keymaps.FindByPath` | src/keymap.rs:111-122 | The key-by-key loop of `find_by_path` finds the action reached along the path, or nothing when the path leaves the tree. |
| `Keymaps.StepKeepsChordPrefix` | src/keymap.rs:67-101 | One key keeps the pending keys a prefix of some chord. Keys stay pending exactly when the result is Pending. |
| `Keymaps.ChordResolves` | src/keymap.rs:67-101 | Typing a whole chord that leads to a command, with no Esc after its first key, answers Pending for every key but the last and Found with the command for the last. Nothing is left pending. |
| `Keymaps.ChordTail` | src/keymap.rs:67-101 | The same holds from any point inside such a chord. |
| `Keymaps.DistinctByCodes` | src/keymap.rs:34-36 | Bindings whose key codes are pairwise different never trip the duplicate-key assertion. |
| `Keymaps.NormalBindingsDistinct` | src/keymap.rs:132-160 | The Normal-mode table binds no key twice, so building it never panics. |
| `Keymaps.InsertBindingsDistinct` | src/keymap.rs:162-179 | The Insert-mode table binds no key twice, so building it never panics. |
| `Keymaps.Keymaps.constructor` | src/keymap.rs:59-65 | The default keymaps hold exactly the Normal and Insert tables, with nothing pending. |
| `Keymaps.Keymaps.Get` | src/keymap.rs:67-101 | A mode with no keymap panics. Otherwise the result and the new pending keys are one step of the chord automaton: Esc cancels the pending keys; an unbound root is NotFound; a command at the root is Found; a key that extends a chord is Pending; a finished chord is Found and clears the pending keys; a dead end is Cancelled with the pending keys. |
| `Keymaps.NormalChords` | src/keymap.rs:149-157 | In Normal mode, `d d` deletes the current line and `g g` goes to the first line. |
| `Keymaps.InsertChord` | src/keymap.rs:170-172 | In Insert mode, `j k` returns to Normal mode. |
| `Keymaps.TwoKeyChord` | src/keymap.rs:67-101 | A two-key chord answers Pending and then Found with its command. |
| `Compositors.Collected` | src/compositor.rs:95-111 | At most one callback is gathered per layer that was asked. |
| `Compositors.CollectedAppend` | src/compositor.rs:95-115 | Callbacks of upper layers run before those of lower layers. |
| `Compositors.CollectedOne` | src/compositor.rs:102-109 | A single layer contributes exactly the callback it returned, if any. |
| `Compositors.Reached` | src/compositor.rs:95-106 | The lowest layer an event reaches is the topmost one that consumes it, or the bottom of the stack. |
| `Compositors.Compositor.constructor` | src/compositor.rs:51-53 | A new compositor has the given size and no layers. |
| `Compositors.Compositor.Push` | src/compositor.rs:55-57 | The layer goes on top and nothing else changes. |
| `Compositors.Compositor.Pop` | src/compositor.rs:59-61 | The top layer comes off and is returned. An empty stack gives nothing and stays empty. |
| `Compositors.Compositor.Resize` | src/compositor.rs:69-71 | Only the size changes. |
| `Compositors.Compositor.HideCursor` | src/compositor.rs:73-80 | The cursor is hidden exactly when some layer asks for it. |
| `Compositors.Compositor.Cursor` | src/compositor.rs:82-89 | The position and style come from the topmost layer that reports a position. With no such layer both are absent. |
| `Compositors.Compositor.HandleEvent` | src/compositor.rs:91-118 | The event is consumed exactly when some layer consumes it. The callbacks are those of the layers from the top down to that layer, topmost first. An event other than a key or a paste reaches the unreachable branch when there is a layer. |
| `Compositors.Compositor.Find` | src/compositor.rs:120-126 | Finds the bottommost layer of the type, or nothing. |
| `Compositors.Compositor.Remove` | src/compositor.rs:128-135 | Takes out and returns the bottommost layer of the type, keeping the others in order. With no such layer it returns nothing and changes nothing. |
| `Compositors.FirstOfType` | src/compositor.rs:130-133 | The `position` scan finds the first layer of the type from the bottom. |
| `Compositors.RemoveKeepsOthers` | src/compositor.rs:128-135 | Removing by type keeps every other layer in order, and the removed layer is the bottommost of its type. |
| `Registers.Pushed` | src/registers.rs:14-25 | After a push the register ends with the value. A missing register is created holding only the value. A value equal to the latest entry changes nothing. Any other value is appended. Other registers are untouched. |
| `Registers.PushedWellFormed` | src/registers.rs:14-25 | Pushing never puts two equal entries next to each other in a register. |
| `Registers.PushIdempotent` | src/registers.rs:17-19 | Pushing the same value twice is the same as pushing it once. |
| `Registers.Registers.constructor` | src/registers.rs:3-7 | The default registers are empty. |
| `Registers.Registers.Get` | src/registers.rs:10-12 | Returns a register's entries exactly when the register exists. |
| `Registers.Registers.GetNth` | src/registers.rs:27-29 | Returns entry `idx` of the register. It returns nothing for a missing register or an index past the end. |
| `Registers.Registers.Push` | src/registers.rs:14-25 | Updates the registers as `Pushed` says and keeps them free of neighbouring repeats. |
| `TextObjects.WordOf` | src/textobject.rs:6-65 | A word spans the graphemes it was cut from. |
| `TextObjects.NonBlank` | src/textobject.rs:60-63 | Dropping blank words keeps exactly the words that are not blank. |
| `TextObjects.TilesCons` | src/textobject.rs:6-65 | A word followed by a tiling of the rest of the line tiles the line from the word's start. |
| `TextObjects.WordsFromTile` | src/textobject.rs:6-65 | The words cut from any point tile the rest of the line. |
| `TextObjects.SameCategoryGrows` | src/textobject.rs:28-40 | A run of one category extends over a next grapheme of the same category. |
| `TextObjects.WordsTile` | src/textobject.rs:6-65 | The line is split exactly where neighbouring graphemes differ in category. The words cover every grapheme in order, each word has one category, and neighbouring words differ in category. |
| `TextObjects.WordsContiguous` | src/textobject.rs:6-65 | In bytes the first word starts at 0, each word starts where the previous one ends, and the last one ends with the line. |
| `TextObjects.WordsOfLine` | src/textobject.rs:6-65 | The one-pass scan returns the words of the line, without the blank ones when asked. |
| `TextObjects.FilterBlank` | src/textobject.rs:60-63 | The filter keeps exactly the words that are not blank. |
| `TextObjects.TryFrom` | src/textobject.rs:97-109 | `w` is a word, `W` is a long word, and every other key is an error. |
| `TextObjects.WordAt` | src/textobject.rs:113-116 | Returns a word of the line that contains the column. It returns nothing, where the source panics, exactly when no word contains it. |
| `TextObjects.FirstContaining` | src/textobject.rs:115 | The first word containing the column, or nothing exactly when none does. |
| `TextObjects.EmptyLineHasNoWord` | src/textobject.rs:113-116 | On an empty line no word holds the cursor, so the word lookup would panic. |
| `Views.Pop` | src/view.rs:33-35 | Ending a highlight removes the topmost one and leaves an empty stack alone. |
| `Views.AdvanceYields` | src/view.rs:27-48 | `next` yields an item exactly when a source span remains. The item is the stacked style with the span's end, and the events it consumed are a prefix. |
| `Views.SourceInTail` | src/view.rs:27-48 | Skipping a highlight start or end keeps whether a source span remains. |
| `Views.TopmostWins` | src/view.rs:37-43 | The topmost active highlight wins every style field it sets. |
| `Views.StartThenEnd` | src/view.rs:29-35 | A highlight started and then ended leaves the stack as it was. |
| `Views.NoHighlightPlainText` | src/view.rs:37-43 | With no highlight active a span gets the plain text style. |
| `Views.StyleIter.constructor` | src/view.rs:17-22 | A new iterator has no highlight active and keeps the events and styles. |
| `Views.StyleIter.Next` | src/view.rs:27-48 | One call moves the iterator to the state `Advance` describes and returns its item. |
| `Views.StackedStyle` | src/view.rs:37-43 | The fold patches the active highlights onto the text style, bottom to top. |
| `Views.VisibleByteRange` | src/view.rs:188-195 | The range runs from the first byte of the top visible line to the first byte after the last visible line, clamped to the document's last line. |
| `Views.VisibleBytesAreVisibleLines` | src/view.rs:188-195 | The visible range holds exactly the bytes of the visible lines. That is between one and `height` lines from the top one, never past the end of the document. |
| `Views.VisualSelectionStyle` | src/view.rs:198-214 | In Select mode a cell inside some selection range gets the selection style patched on. Any other cell, and any cell outside Select mode, keeps its style. |
| `Views.SelectionOverlayOnlyInside` | src/view.rs:198-214 | The overlay changes a cell only in Select mode and only inside a range. |
| `Selection.CursorMin` | src/selection.rs:16-29 | `min` under the row-then-column order returns one of its arguments, and that argument is no greater than either. |
| `Selection.CursorMax` | src/selection.rs:16-29 | `max` returns one of its arguments, and that argument is no smaller than either. |
| `Selection.CursorOrder` | src/selection.rs:16-29 | The cursor order, rows first and then columns, is a strict total order. |
| `Selection.CursorTestCases` | src/selection.rs:438-457 | The comparisons and min/max results that the unit tests assert hold. |
| `Selection.From` | src/selection.rs:76-78 | A range starts at the earlier of its head and anchor. |
| `Selection.To` | src/selection.rs:80-82 | A range ends at the later of its head and anchor, never before its start. |
| `Selection.OverlapsIffSharedPosition` | src/selection.rs:84-86 | Two ranges overlap exactly when some position lies in both, and overlap is symmetric. |
| `Selection.OverlapTestCases` | src/selection.rs:460-512 | The rows of the overlap table that the unit tests assert hold. |
| `Selection.Merge` | src/selection.rs:89-103 | The merged range runs from the earlier start to the later end and contains both inputs. It is backward exactly when both inputs are, and keeps the larger sticky column. |
| `Selection.Flip` | src/selection.rs:110-116 | Head and anchor swap and the covered span stays the same. The sticky column becomes the new head's column. |
| `Selection.FlipTwice` | src/selection.rs:110-116 | Flipping twice restores head and anchor; only the sticky column is reset to the head's. |
| `Selection.CollapseToHead` | src/selection.rs:171-176 | The result is an empty range at the head that keeps the sticky column. |
| `Selection.CollapseToStart` | src/selection.rs:178-185 | The result is an empty range at the start, inside the original range. |
| `Selection.MoveDirection` | src/selection.rs:375-390 | The horizontal direction is absent exactly when the columns are equal, and Right exactly when the column grows. The vertical direction is absent exactly when the rows are equal, and Down exactly when the row grows. |
| `Selection.AlignedFrom` | src/selection.rs:188-225 | `grapheme_aligned`'s scan from one grapheme on; the `Selection.AlignedFrom*` lemmas are stated about it. |
| `Selection.Aligned` | src/selection.rs:188-225 | The column `grapheme_aligned` settles on; `Selection.AlignedSettlesOnBoundary` characterises it. |
| `Selection.AlignedFromBoundary` | src/selection.rs:188-225 | From a grapheme boundary before the head, the scan settles on a grapheme boundary. |
| `Selection.AlignedFromPast` | src/selection.rs:188-225 | A head past the end of the line is left where it is. |
| `Selection.AlignedFromStays` | src/selection.rs:188-225 | A head already on a boundary is left where it is. |
| `Selection.AlignedFromBack` | src/selection.rs:188-225 | Moving left or up never moves the head to the right. |
| `Selection.AlignedFromInRange` | src/selection.rs:188-225 | A head within the line's cursor range stays within it. |
| `Selection.StartsBeforeEnd` | src/selection.rs:392-397 | With no zero-width grapheme, every grapheme starts before the line's last column. |
| `Selection.AlignedSettlesOnBoundary` | src/selection.rs:188-225 | `grapheme_aligned` settles a head on a grapheme boundary. A head already on one, or past the end of the line, stays. A head moving left or up never moves right, and a head in range stays in range. |
| `Selection.AlignedFromInside` | src/selection.rs:205-215 | Moving left or up to a column inside a grapheme settles on that grapheme's start. |
| `Selection.AlignedAtEnd` | src/selection.rs:188-225 | The end of the line is a boundary, so aligning it keeps it. |
| `Selection.AlignedAtStart` | src/selection.rs:188-225 | Column 0 is a boundary, so aligning it keeps it. |
| `Selection.BoundaryWithinWidth` | src/selection.rs:188-225 | A grapheme boundary lies within the line. |
| `Selection.GraphemeAligned` | src/selection.rs:188-225 | The scanning loop moves only the head's column, to the aligned column. |
| `Selection.MoveTo` | src/selection.rs:120-142 | The head moves to the given row, or the current one, clamped to the document. Its column is the given column, or the sticky column, clamped to the line's last cursor column and then grapheme-aligned. Outside Select mode the anchor follows the head; in Select mode it stays. |
| `Selection.ColumnByteFromBounds` | src/selection.rs:401-431 | The byte found for a column lies within the line's bytes. |
| `Selection.CursorByteOffsetInLine` | src/selection.rs:401-431 | A cursor's byte offset lies within its line. Outside Select mode it stays before the line's end, so the line feed counts only in Select mode. |
| `Selection.ByteOffsetAtCursor` | src/selection.rs:401-431 | The grapheme-by-grapheme walk returns the cursor's byte offset. |
| `Selection.ByteSpan` | src/selection.rs:233-250 | Both ends of the byte span lie within the document. |
| `Selection.ByteRange` | src/selection.rs:233-250 | The range runs from the start cursor's byte to the end cursor's byte, in Select mode through the end of the end cursor's grapheme. A Select-mode range from column 0 to the end of the last line starts at the line feed before it instead. |
| `Selection.IntoSingle` | src/selection.rs:270-279 | Only the primary range is kept, and it becomes the primary. |
| `Selection.Remove` | src/selection.rs:286-297 | Range `index` is dropped and the others keep their order. The primary index stays in bounds. Unless the primary itself was removed, it designates the same range; otherwise it designates the next one. |
| `Selection.InsertByFrom` | src/selection.rs:319 | Inserting one range into a list sorted by start keeps it sorted and adds exactly that range. |
| `Selection.SortedCons` | src/selection.rs:319 | A range no later than the head of a sorted list extends it. |
| `Selection.SortedTail` | src/selection.rs:319 | The tail of a sorted list is sorted. |
| `Selection.SortByFrom` | src/selection.rs:319 | Sorting by start yields a sorted permutation. The model's sort is stable where the source's `sort_unstable_by_key` is not; ranges with equal starts overlap and are merged next, so the order between them does not show. |
| `Selection.NoOverlapMeansBefore` | src/selection.rs:84-86 | A range that starts no earlier than another and does not overlap it starts after the other ends. |
| `Selection.MergeKeepsStart` | src/selection.rs:89-103 | Merging a later-starting range into a kept one keeps the kept range's start. |
| `Selection.SeparatedAppend` | src/selection.rs:321-332 | A range starting after the last kept range ends keeps the kept ranges separated. |
| `Selection.SeparatedReplaceLast` | src/selection.rs:321-332 | Replacing the last kept range by one with the same start keeps them separated. |
| `Selection.DedupSeparated` | src/selection.rs:321-332 | The dedup pass leaves the kept ranges pairwise separated. |
| `Selection.CoversStep` | src/selection.rs:321-332 | One step of the dedup pass keeps every range seen so far inside a kept range. |
| `Selection.DedupCovers` | src/selection.rs:321-332 | Every sorted range ends up inside some kept range. |
| `Selection.EndsStep` | src/selection.rs:321-332 | One step keeps every kept start and end at the start or end of some input range. |
| `Selection.DedupEnds` | src/selection.rs:321-332 | Every kept start and end is the start or end of some input range, so merging invents no position. |
| `Selection.PrimaryStep` | src/selection.rs:321-332 | One step keeps the tracked primary among the kept ranges. |
| `Selection.DedupPrimary` | src/selection.rs:321-332 | The tracked primary is kept and contains the original primary. |
| `Selection.PermutedCovers` | src/selection.rs:319-332 | Covering a sorted permutation covers the original ranges. |
| `Selection.PermutedEnds` | src/selection.rs:319-332 | Ends taken from a sorted permutation are ends of the original ranges. |
| `Selection.DedupStart` | src/selection.rs:321-332 | Before the first merge, the first sorted range is kept and every dedup invariant holds. |
| `Selection.DedupSoundSeparated` | src/selection.rs:321-332 | The ranges the dedup pass keeps are separated. |
| `Selection.DedupSoundCovers` | src/selection.rs:319-332 | The kept ranges cover every range of the selection. |
| `Selection.DedupSoundEnds` | src/selection.rs:319-332 | The kept ranges start and end where ranges of the selection do. |
| `Selection.DedupSoundPrimary` | src/selection.rs:319-338 | The tracked primary is kept and contains the original primary. |
| `Selection.Normalize` | src/selection.rs:314-341 | The result is sorted, with overlapping neighbours merged and no two ranges overlapping. Every original range lies inside a result range, and every result start and end is an original one. The primary index points at the range that absorbed the old primary. |
| `Selection.Dedup` | src/selection.rs:321-332 | The `dedup_by` loop computes the kept ranges and the tracked primary. |
| `Selection.IndexOf` | src/selection.rs:334-338 | `position` returns the first index holding the range. |
| `Selection.Transform` | src/selection.rs:300-309 | Maps every range through the function, keeping the primary index, then normalises. |
| `Selection.Push` | src/selection.rs:343-348 | Adds the range as the new primary, then normalises. The primary of the result contains the pushed range. |
| `Transactions.Empty` | src/history.rs:104-109 | The empty transaction has no operations and the default selection. |
| `Transactions.ApplyAt` | src/history.rs:336-349 | What `apply` does to a rope: retains move a byte cursor, deletes remove bytes at it and inserts place text at it; none when a delete runs past the end. `Transactions.Apply` and `TransactionLaws.ComposedApply` are stated with it. |
| `Transactions.ComposeOps` | src/history.rs:186-305 | The composition `compose` computes, turn by turn, or none for the `unreachable!` panic. Its laws are `TransactionLaws.ComposeTotal` and `TransactionLaws.ComposedApply`. |
| `Transactions.InvertOps` | src/history.rs:307-334 | The inversion `invert` computes against the original rope: retains kept, deletes turned into inserts of the deleted bytes, inserts into deletes. Its law is `TransactionLaws.InvertedUndoes`. |
| `Transactions.LenAppend` | src/history.rs:336-349 | What a sequence of operations consumes and produces adds up over concatenation. |
| `Transactions.ApplyRest` | src/history.rs:336-349 | On a rope holding everything the operations consume, the result's length is the rope's length minus what they consume plus what they produce. |
| `Transactions.ApplyAtRest` | src/history.rs:336-349 | `apply` keeps the bytes before its cursor and rewrites the rest. |
| `Transactions.ApplyAtSplit` | src/history.rs:336-349 | `apply` with its cursor between `x` and `y` keeps `x` and rewrites `y`. |
| `Transactions.RetainAtSplit` | src/history.rs:341 | A leading retain moves the cursor past the bytes it keeps. |
| `Transactions.DeleteAtSplit` | src/history.rs:342 | A leading delete removes its bytes at the cursor. |
| `Transactions.RestDelete` | src/history.rs:342 | A leading delete skips its bytes of the rest. |
| `Transactions.ApplyAtDelete` | src/history.rs:342 | A leading delete is the same as applying the rest to the rope without those bytes. |
| `Transactions.InsertAtSplit` | src/history.rs:343-346 | A leading insert places its text at the cursor and moves the cursor past it. |
| `Transactions.ApplyTail` | src/history.rs:336-349 | Bytes past the last consumed one pass through unchanged. |
| `Transactions.ApplyAppend` | src/history.rs:336-349 | Applying `p + q` applies `p` to the bytes `p` consumes and `q` to the rest. |
| `Transactions.ApplyConcat` | src/history.rs:336-349 | `p + q` applied to `x + y`, where `p` consumes exactly `x`, is `p` applied to `x` followed by `q` applied to `y`. |
| `Transactions.PushInsert` | src/history.rs:147-160 | `insert` leaves what is consumed unchanged and adds the text's length to what is produced. |
| `Transactions.PushDelete` | src/history.rs:162-172 | `delete` adds its count to what is consumed and leaves what is produced unchanged. |
| `Transactions.PushRetain` | src/history.rs:174-184 | `retain` adds its count to both what is consumed and what is produced. |
| `Transactions.PushInsertCanonical` | src/history.rs:147-160 | `insert` keeps a canonical list canonical: no empty operation, no two neighbours of one kind, no delete before an insert. |
| `Transactions.PushDeleteCanonical` | src/history.rs:162-172 | `delete` keeps a canonical list canonical. |
| `Transactions.PushRetainCanonical` | src/history.rs:174-184 | `retain` keeps a canonical list canonical. |
| `Transactions.SamePrefix` | src/history.rs:336-349 | Two tails that rewrite the bytes after a common prefix alike give the same result. |
| `Transactions.AppendNoop` | src/history.rs:147-184 | Appending an operation that does nothing changes nothing, which is why the builders skip them. |
| `Transactions.NoopKeeps` | src/history.rs:147-184 | An operation that does nothing consumes nothing and leaves the bytes as they are. |
| `Transactions.ApplyCons` | src/history.rs:339-347 | The first operation rewrites the bytes it consumes, and the rest rewrite the remaining bytes. |
| `Transactions.JoinInserts` | src/history.rs:151-153 | Two inserts in a row equal one insert of both texts. |
| `Transactions.JoinInsertsAroundDelete` | src/history.rs:151-153 | An insert after `insert, delete` can join the earlier insert. |
| `Transactions.SwapDeleteInsert` | src/history.rs:155 | An insert may move before a trailing delete without changing the effect. |
| `Transactions.JoinDeletes` | src/history.rs:167-168 | Two deletes in a row equal one delete of both counts. |
| `Transactions.DeletesOnce` | src/history.rs:167-168 | Deleting `a` and then `b` bytes is deleting `a + b` bytes. |
| `Transactions.JoinRetains` | src/history.rs:179-180 | Two retains in a row equal one retain of both counts. |
| `Transactions.RetainsOnce` | src/history.rs:179-180 | Retaining `a` and then `b` bytes is retaining `a + b` bytes. |
| `Transactions.RetainKeeps` | src/history.rs:341 | Operations that only retain leave the bytes as they are. |
| `Transactions.PushInsertEffect` | src/history.rs:147-160 | `insert` has the effect of appending `Insert(text)`, whichever of its joins it takes. |
| `Transactions.PushDeleteEffect` | src/history.rs:162-172 | `delete` has the effect of appending `Delete(count)`. |
| `Transactions.PushRetainEffect` | src/history.rs:174-184 | `retain` has the effect of appending `Retain(count)`. |
| `Transactions.PushDeleteJoined` | src/history.rs:167-168 | `delete` after a trailing delete has the effect of appending a separate delete. |
| `Transactions.PushDeleteShape` | src/history.rs:167-168 | `delete` after a trailing delete grows that delete in place. |
| `Transactions.PushRetainJoined` | src/history.rs:179-180 | `retain` after a trailing retain has the effect of appending a separate retain. |
| `Transactions.PushRetainShape` | src/history.rs:179-180 | `retain` after a trailing retain grows that retain in place. |
| `Transactions.Apply` | src/history.rs:336-349 | The loop that edits the rope in place at a byte cursor yields the rope the operations describe. |
| `Transactions.ComposeTurn` | src/history.rs:208-301 | One turn of the `compose` loop shrinks the pending operations. Running out on one side while the other still holds a retain, a delete (second side) or an insert (first side) is the `unreachable!` panic. |
| `Transactions.TurnRetainRetain` | src/history.rs:223-239 | Two retains: the shorter one passes through and the rest of the longer one stays pending. |
| `Transactions.TurnInsertDelete` | src/history.rs:240-259 | An insertion deleted again emits nothing. Whatever is left of either side stays pending. |
| `Transactions.TurnInsertRetain` | src/history.rs:260-283 | The retained part of an insertion is emitted as an insert. |
| `Transactions.TurnRetainDelete` | src/history.rs:284-300 | The deleted part of a retained span is emitted as a delete. |
| `Transactions.Emit` | src/history.rs:208-301 | Emitting through a builder adds the operation's consumed and produced lengths. |
| `Transactions.Next` | src/history.rs:200-201 | Taking the next operation leaves the pending operation and the unread rest equal to what was unread before. |
| `Transactions.Compose` | src/history.rs:186-305 | The loop over both iterators computes the composition, or the panic when one side runs out early. An empty side returns the other transaction. |
| `Transactions.PendingParts` | src/history.rs:200-201 | The pending operations are the held one followed by the unread rest. |
| `Transactions.ComposeStep` | src/history.rs:209-301 | One pass through the `match` performs one turn. It reports the `unreachable!` arm exactly when the turn has none. |
| `Transactions.StepRetainRetain` | src/history.rs:223-239 | The retain-retain arm performs its turn. |
| `Transactions.StepInsertDelete` | src/history.rs:240-259 | The insert-delete arm performs its turn. |
| `Transactions.StepInsertRetain` | src/history.rs:260-283 | The insert-retain arm performs its turn. |
| `Transactions.StepRetainDelete` | src/history.rs:284-300 | The retain-delete arm performs its turn. |
| `Transactions.InvertOpsStep` | src/history.rs:315-331 | A retain is retained back, a delete re-inserts the original bytes at the offset, and an insert is deleted back. A delete past the end of the original rope cannot be inverted. |
| `Transactions.Invert` | src/history.rs:307-334 | The loop over the operations with a byte offset into the original rope computes the inversion, which carries the original selection. |
| `TransactionLaws.TurnLens` | src/history.rs:208-301 | One turn keeps the difference between what the first side produces and what the second consumes. |
| `TransactionLaws.LensFromHeads` | src/history.rs:208-301 | What a turn keeps of the leading operations, it keeps of the whole lists. |
| `TransactionLaws.ComposeLens` | src/history.rs:186-305 | When `compose` finishes, the first transaction produced exactly what the second consumes. The result consumes what the first does and produces what the second does. |
| `TransactionLaws.ComposeTotal` | src/history.rs:186-305 | `compose` never reaches its `unreachable!` arm when neither transaction holds an empty operation and the first produces exactly what the second consumes. |
| `TransactionLaws.AppendOne` | src/history.rs:336-349 | Appending one operation appends its effect on the bytes it consumes. |
| `TransactionLaws.EmitLaw` | src/history.rs:147-184 | Emitting an operation through its builder appends that operation's effect. |
| `TransactionLaws.RetainRetainEffect` | src/history.rs:223-239 | The retain-retain turn splits the effect of the first and then the second side into the emitted retain and the pending rest. |
| `TransactionLaws.InsertDeleteEffect` | src/history.rs:240-259 | The insert-delete turn splits the effect the same way, with nothing emitted. |
| `TransactionLaws.InsertRetainEffect` | src/history.rs:260-283 | The insert-retain turn splits the effect with the retained text emitted. |
| `TransactionLaws.RetainDeleteEffect` | src/history.rs:284-300 | The retain-delete turn splits the effect with the deleted span emitted. |
| `TransactionLaws.DeleteFirstEffect` | src/history.rs:211-215 | A leading delete of the first side passes through to the result. |
| `TransactionLaws.InsertSecondEffect` | src/history.rs:216-221 | A leading insert of the second side passes through to the result. |
| `TransactionLaws.TurnEffect` | src/history.rs:208-301 | Every turn of `compose` splits the effect of the pending operations into the emitted operation's effect and that of the new pending operations. |
| `TransactionLaws.PairTurn` | src/history.rs:223-300 | With neither a leading delete of the first side nor a leading insert of the second, the turn on the two leading operations is the arm of the `match` for their kinds. |
| `TransactionLaws.ComposeEffect` | src/history.rs:186-305 | What `compose` builds rewrites a document as the operations emitted so far do on their part, followed by the first and then the second side on the rest. |
| `TransactionLaws.ComposeRegroup` | src/history.rs:208-301 | One turn, regrouped: the emitted operation joins the result on the left and the turn's effect stays on the right. |
| `TransactionLaws.EmitCanonical` | src/history.rs:147-184 | The builders keep the canonical form. |
| `TransactionLaws.ComposeCanonical` | src/history.rs:186-305 | What `compose` builds from a canonical start is canonical. |
| `TransactionLaws.ApplyFromStart` | src/history.rs:336-349 | `apply` from the start of a document that holds what the operations consume rewrites it as the operations say. |
| `TransactionLaws.ComposeOpsEffect` | src/history.rs:186-305 | The composition, from an empty start, applied to a document is the first side and then the second side applied to it. |
| `TransactionLaws.ComposeFromEmpty` | src/history.rs:186-305 | The same on exactly the bytes the first side consumes. |
| `TransactionLaws.ComposeTail` | src/history.rs:186-305 | Bytes past what both sides consume pass through unchanged on both sides. |
| `TransactionLaws.ComposedApply` | src/history.rs:186-305 | Applying the composition of `x` and `y` to a document that holds what `x` consumes is applying `x` and then `y`. The composition carries `y`'s selection unless `y` is empty. |
| `TransactionLaws.InvertTotal` | src/history.rs:307-334 | Inverting against a rope that holds everything the operations consume always succeeds. |
| `TransactionLaws.Build` | src/history.rs:147-184 | Pushing operations through the builders keeps what they consume and produce. |
| `TransactionLaws.EmitOpEffect` | src/history.rs:147-184 | A builder has the effect of appending its operation. |
| `TransactionLaws.BuildEffect` | src/history.rs:147-184 | Building with the builders has the effect of plain concatenation. |
| `TransactionLaws.Reversal` | src/history.rs:315-331 | The inverse of each operation on its own consumes what the operations produce and produces what they consume. |
| `TransactionLaws.InvertIsBuild` | src/history.rs:307-334 | `invert` is the per-operation inverse pushed through the builders. |
| `TransactionLaws.ReversalUndo` | src/history.rs:315-331 | The per-operation inverse undoes the operations on the bytes they consume. Bytes past those pass through both unchanged. |
| `TransactionLaws.UndoRetainStep` | src/history.rs:317-320 | A retained head is retained back and the rest is undone by the rest. |
| `TransactionLaws.UndoDeleteStep` | src/history.rs:321-325 | A deleted head is inserted back and the rest is undone by the rest. |
| `TransactionLaws.UndoInsertStep` | src/history.rs:326-329 | An inserted head is deleted back and the rest is undone by the rest. |
| `TransactionLaws.InvertUndo` | src/history.rs:307-334 | Applying the operations to a document that holds what they consume, and then applying their inversion, gives the document back. |
| `TransactionLaws.InvertedUndoes` | src/history.rs:307-334 | `invert` against the state a transaction was applied to gives a transaction that restores the rope and carries the state's selection. |
| `TransactionLaws.DoubleInversion` | src/history.rs:307-334 | Inverting the inversion against the edited rope gives a transaction with the same effect on the original rope as the transaction itself. |
| `Changes.Ordered` | src/history.rs:122-137 | What `change` demands of its changes: each range well formed, each starting no earlier than the previous one ended, and the last ending within the rope, so that no unsigned subtraction underflows. |
| `Changes.RawChangeOps` | src/history.rs:115-140 | The operations `change` emits as written, without the coalescing builders. `Changes.RawChangeApplies` and `Changes.RawChangeComposePanics` are stated about it. |
| `Changes.Changed` | src/history.rs:115-140 | Corrected: the transaction `change` builds when its operations go through the builders. `Changes.ChangedApplies` and `Changes.ChangedComposes` are stated about it. |
| `Changes.ChangeOpsStep` | src/history.rs:122-135 | One iteration of the `change` loop handles the first change and continues from its end. |
| `Changes.FromChanges` | src/history.rs:115-140 | The loop builds the transaction of the changes, with the operations pushed through the builders and the default selection. |
| `Changes.ChangeStep` | src/history.rs:126-134 | The loop body pushes one change's retain, insert and delete through the builders. |
| `Changes.RawChangeEffect` | src/history.rs:126-132 | One change's operations consume the bytes up to the end of its range. They keep the bytes before its start and replace the range by its text. |
| `Changes.RawChangeParts` | src/history.rs:126-132 | The same, stated on the bytes before the change and the bytes it replaces. |
| `Changes.RawChangeLens` | src/history.rs:122-137 | The operations of `change` consume exactly the rope. |
| `Changes.RawChangeApplies` | src/history.rs:122-137 | The operations of `change`, applied to the rope, carry out every change. |
| `Changes.RawChangeAppliesStep` | src/history.rs:122-137 | Carrying out the first change and then the rest carries out all of them. |
| `Changes.BuildCanonical` | src/history.rs:147-184 | The builders keep the canonical form. |
| `Changes.BuildAppend` | src/history.rs:147-184 | Building `p + q` is building `p` and then `q` on the result. |
| `Changes.PushChangeIsBuild` | src/history.rs:126-132 | Pushing one change through the builders is folding its raw operations through them. |
| `Changes.BuildTail` | src/history.rs:128-132 | The insert, if any, and the delete of one change, folded through the builders. |
| `Changes.ChangeIsBuild` | src/history.rs:115-140 | `change` through the builders is all raw operations folded through them. |
| `Changes.ChangedApplies` | src/history.rs:115-140 | The transaction from the builders consumes exactly the rope, carries out every change, and is canonical. |
| `Changes.ChangedComposes` | src/history.rs:115-140 | The transaction from the builders composes with every transaction that holds no empty operation and consumes what it produces. |
| `Changes.RawChangeComposePanics` | src/history.rs:126-137 | As written, `change` on "ab\n" with the change 3..3 to "x" yields Retain(3), Insert("x"), Delete(0), Retain(0). Composing it with Retain(4), which consumes exactly its four output bytes, reaches the `unreachable!` arm of `compose`. |
| `Histories.LastPathKept` | src/history.rs:52-68 | Changing only the last child of the current revision and adding revisions after the old ones keeps the last-child path from any earlier revision to the root. |
| `Histories.History.constructor` | src/history.rs:36-49 | The history starts with the root revision, its own parent, with empty transactions, as the current revision. |
| `Histories.History.CommitRevision` | src/history.rs:52-68 | The transaction and its inversion against the state it was applied to become a new revision. The new revision is the last child of the current one and becomes current. The inversion exists and undoes the transaction, and the history's invariant is kept. |
| `Histories.History.Undo` | src/history.rs:70-78 | At the root there is nothing to undo. Otherwise the parent becomes current, and the inversion of the revision left behind is returned; it undoes that revision's transaction. Redo leads back to that revision. |
| `Histories.History.Redo` | src/history.rs:80-86 | Without a last child there is nothing to redo. Otherwise the last child becomes current and its transaction is returned. |
| `EditableTexts.LastColumn` | src/editable_text.rs:121-123 | The last grapheme of a line ends at the line's width. |
| `EditableTexts.AlignedAsWritten` | src/editable_text.rs:228-255 | `ensure_cursor_is_on_grapheme_boundary` as written, with its `mode == Insert` test; `EditableTexts.AlignedAsWrittenLeavesRange` is stated about it. |
| `EditableTexts.Aligned` | src/editable_text.rs:228-255 | Corrected: the same alignment with src/selection.rs's `!= Insert` test; `EditableTexts.AlignedInRange` is stated about it. |
| `EditableTexts.MovedColumn` | src/editable_text.rs:210-226 | The column `move_cursor_to` leaves for an explicit column: clamped to the last cursor column, then aligned in the move's direction. The cursor methods' contracts are stated with it. |
| `EditableTexts.JoinColumn` | src/editable_text.rs:187-193 | A move to the end of the previous line, as `delete_to_the_left` makes when it joins lines, lands at the join point in Insert mode and on the start of that line's last grapheme in Normal mode. |
| `EditableTexts.AlignFromFacts` | src/editable_text.rs:228-255 | The boundary scan never moves a cursor right when going back, never moves it past the line, and keeps an in-range cursor in range when the last grapheme sends it back. |
| `EditableTexts.AlignBackInside` | src/editable_text.rs:240-242 | A move back from inside a grapheme lands on the grapheme's start. |
| `EditableTexts.AlignedInRange` | src/selection.rs:188-225 | The corrected alignment keeps a cursor that started within the line's cursor range within it, in Normal and Insert mode. |
| `EditableTexts.AlignedAsWrittenLeavesRange` | src/editable_text.rs:243-248 | As written, a move right into a wide last grapheme goes past the last cursor column in Normal mode. In Insert mode it is sent back to the grapheme's start and cannot get past it. |
| `EditableTexts.IndexAtFrom` | src/editable_text.rs:97-108 | The scan for the grapheme at a column ends within the line. |
| `EditableTexts.IndexAtOffset` | src/editable_text.rs:97-108 | The editor's scan for a column agrees with the selection's scan outside Select mode: both find the byte offset of the grapheme starting at that column, or nothing. |
| `EditableTexts.CursorOffsetAtIndex` | src/editable_text.rs:97-108 | Outside Select mode, `byte_offset_at_cursor` is the document offset of the grapheme at the cursor's column. |
| `EditableTexts.AtOrPastFrom` | src/editable_text.rs:153-169 | The index `grapheme_at_cursor` finds lies within the line, or is its length. |
| `EditableTexts.AtOrPastBrackets` | src/editable_text.rs:153-175 | For a column inside the line past the first grapheme, the grapheme before that index is the one left of the cursor. |
| `EditableTexts.InsertedBytes` | src/editable_text.rs:133-138 | Inserting a grapheme inserts exactly its bytes at its offset in the document. |
| `EditableTexts.InsertedGraphemeBytes` | src/editable_text.rs:133-138 | The same for a grapheme that is not a line feed, line by line. |
| `EditableTexts.InsertedGraphemeDoc` | src/editable_text.rs:133-138 | The same, stated on the whole document. |
| `EditableTexts.SplitLineBytes` | src/editable_text.rs:133-141 | Inserting a line feed inserts exactly its byte at its offset in the document. |
| `EditableTexts.WithoutGraphemeBytes` | src/editable_text.rs:172-185 | Removing a grapheme removes exactly its bytes from the document. |
| `EditableTexts.WithoutGraphemeDoc` | src/editable_text.rs:172-185 | The same, stated on the whole document. |
| `EditableTexts.JoinedBytes` | src/editable_text.rs:187-192 | Joining a line with the previous one removes exactly the line feed before it. |
| `EditableTexts.JoinedDoc` | src/editable_text.rs:187-192 | The same, stated on the whole document. |
| `EditableTexts.IndexAtColumn` | src/editable_text.rs:97-108 | When the scan stops inside the line, the grapheme it found starts exactly at the column. |
| `EditableTexts.InsertedKeepsCursor` | src/editable_text.rs:133-145 | After an insertion at the cursor's column, the cursor's line still reaches that column. |
| `EditableTexts.WithoutGraphemeWidth` | src/editable_text.rs:172-185 | Removing a grapheme shortens its line by the grapheme's width. |
| `EditableTexts.JoinedWidth` | src/editable_text.rs:187-192 | Joining two lines gives a line as wide as both. |
| `EditableTexts.StepLeftLandsOnGrapheme` | src/editable_text.rs:172-184 | A cursor one column left, moved back onto a grapheme start, lands on the start of the grapheme before the index `grapheme_at_cursor` returns. So the cursor and the deletion agree. |
| `EditableTexts.ForwardFrom` | src/editable_text.rs:395-405 | The target `goto_character_forward` scans for; `EditableTexts.ForwardTarget` characterises it. |
| `EditableTexts.BackwardFrom` | src/editable_text.rs:407-417 | The target `goto_character_backward` scans for; `EditableTexts.BackwardTarget` characterises it. |
| `EditableTexts.ForwardTarget` | src/editable_text.rs:395-405 | The forward target is the start column of the first grapheme right of the cursor that starts with the character. No grapheme strictly between starts with it, and there is no target when none does. |
| `EditableTexts.BackwardTarget` | src/editable_text.rs:407-417 | The backward target is the end column of the last grapheme ending at or before the cursor that starts with the character. There is no target when none does. |
| `EditableTexts.FirstWhitespaceAsWritten` | src/editable_text.rs:273-280 | As written, the search finds the first grapheme that IS whitespace. |
| `EditableTexts.FirstNonWhitespace` | src/editable_text.rs:273-280 | The corrected search finds the first grapheme that is not whitespace, with only whitespace before it, or nothing on a blank line. |
| `EditableTexts.FirstNonWhitespaceAsWrittenMisses` | src/editable_text.rs:273-280 | On an indented line the as-written search stops on the indentation's first column. On an unindented line with a later space it jumps to the space. |
| `EditableTexts.WordForward` | src/editable_text.rs:333-361 | A forward word motion lands on a line at or below the scanned line. |
| `EditableTexts.WordBackward` | src/editable_text.rs:363-393 | A backward word motion lands on a line at or above the scanned line. |
| `EditableTexts.WordForwardLands` | src/editable_text.rs:333-361 | A forward motion lands on a line with a word to stop at, at that word's mark. |
| `EditableTexts.WordForwardSkips` | src/editable_text.rs:336-345 | A forward motion passes over exactly the lines with no word to stop at. |
| `EditableTexts.WordBackwardLands` | src/editable_text.rs:363-393 | A backward motion lands on a line with a word to stop at, at that word's mark. |
| `EditableTexts.WordBackwardSkips` | src/editable_text.rs:366-376 | A backward motion passes over exactly the lines with no word to stop at. |
| `EditableTexts.StopForwardMeaning` | src/editable_text.rs:337-342 | On a later line a forward motion stops at the first non-blank word. On the cursor's line it stops at the first word whose mark is right of the cursor. |
| `EditableTexts.StopBackwardMeaning` | src/editable_text.rs:368-373 | On an earlier line a backward motion stops at the last non-blank word. On the cursor's line it stops at the last word whose mark is left of the cursor. |
| `EditableTexts.WordForwardMovesOn` | src/editable_text.rs:333-361 | A forward word motion goes strictly past the cursor, to a later line or to the right on the same one. |
| `EditableTexts.WordBackwardMovesBack` | src/editable_text.rs:363-393 | A backward word motion goes strictly before the cursor, to an earlier line or to the left on the same one. |
| `EditableTexts.MarkOnGrapheme` | src/editable_text.rs:282-331 | A word motion lands where a grapheme of the line starts. |
| `EditableTexts.ScanForward` | src/editable_text.rs:337-342 | The scan of one line's words returns the first one the forward motion may stop at. |
| `EditableTexts.ScanBackward` | src/editable_text.rs:368-373 | The scan of one line's words, last to first, returns the last one the backward motion may stop at. |
| `EditableTexts.FindWordForward` | src/editable_text.rs:336-345 | The labelled loop over the lines from the cursor's down finds the forward target. |
| `EditableTexts.FindWordBackward` | src/editable_text.rs:366-376 | The labelled loop over the lines from the cursor's up finds the backward target. |
| `EditableTexts.EditableText.constructor` | src/editable_text.rs:88-95 | A new text keeps the document and puts the cursor and sticky column at the top left. |
| `EditableTexts.EditableText.ByteOffsetAtCursor` | src/editable_text.rs:97-108 | The offset is that of the grapheme at column `x` of line `y`, or the line's end, and lies within the document. |
| `EditableTexts.EditableText.ByteRangeUntilEol` | src/editable_text.rs:199-208 | The range runs from the cursor's byte to the end of its line. It is absent exactly when that end is byte 0. |
| `EditableTexts.EditableText.EnsureCursorOnGraphemeBoundary` | src/editable_text.rs:228-255 | Only the cursor column changes, to its corrected grapheme alignment. |
| `EditableTexts.EditableText.MoveCursorTo` | src/editable_text.rs:210-226 | Corrected: the line is the given one, or the cursor's, clamped to the document. The column is `MovedColumn`: the given one, or the sticky column, clamped to the line's last cursor column and aligned by the corrected alignment. The sticky column follows only an explicit column. The cursor stays within the line. |
| `EditableTexts.EditableText.CursorUp` | src/editable_text.rs:257-259 | The cursor goes one line up, stopping at the first line, and keeps the sticky column. |
| `EditableTexts.EditableText.CursorDown` | src/editable_text.rs:261-263 | The cursor goes one line down, stopping at the last line, and keeps the sticky column. |
| `EditableTexts.EditableText.CursorLeft` | src/editable_text.rs:265-267 | Corrected: the cursor goes one column left, stopping at column 0, onto the start of the grapheme it lands in, and strictly left unless it was at 0. |
| `EditableTexts.EditableText.CursorRight` | src/editable_text.rs:269-271 | Corrected: the cursor goes one column right, clamped to the line, onto a grapheme edge by the corrected alignment. |
| `EditableTexts.EditableText.InsertCharAtCursor` | src/editable_text.rs:133-145 | Corrected: the grapheme goes in before the grapheme at the cursor. A line feed moves the cursor to the start of the next line. Anything else moves it to `MovedColumn` of one column right on the new line: clamped to the line and aligned by the corrected alignment. |
| `EditableTexts.EditableText.DeleteToTheLeft` | src/editable_text.rs:171-197 | Corrected: something is deleted exactly when the cursor is not at the top left. Inside a line the grapheme left of the cursor is removed and the cursor goes to its start. At the start of a later line the line is joined to the previous one. The cursor then goes to the join point in Insert mode, and to the start of the previous line's last grapheme in Normal mode. |
| `EditableTexts.EditableText.GraphemeAtCursor` | src/editable_text.rs:153-169 | The index is that of the first grapheme starting at or past the cursor, or the line's length. |
| `EditableTexts.EditableText.GotoCharacterForward` | src/editable_text.rs:395-405 | Corrected: with a target, the cursor goes to `MovedColumn` of the target minus the offset, saturating. With no offset and a target within the last cursor column it lands exactly on the target. Nothing moves when there is no target. |
| `EditableTexts.EditableText.GotoCharacterBackward` | src/editable_text.rs:407-417 | Corrected: with a target, the cursor goes to `MovedColumn` of the target minus the offset, saturating. With no offset and a target within the last cursor column it lands exactly on the target. Nothing moves when there is no target. |
| `EditableTexts.EditableText.GotoWordForward` | src/editable_text.rs:333-361 | The cursor moves to the forward word target, a word's start or end. Nothing moves when there is none. |
| `EditableTexts.EditableText.GotoWordBackward` | src/editable_text.rs:363-393 | The cursor moves to the backward word target. Nothing moves when there is none. |
| `EditableTexts.EditableText.GotoLineFirstNonWhitespace` | src/editable_text.rs:273-280 | Corrected: the cursor goes to the line, at `MovedColumn` of the column of the line's first non-whitespace grapheme. In both modes that is exactly the column when graphemes have positive width. Nothing happens on a blank line. |
| `EditableTexts.IsBoundaryAt` | src/editable_text.rs:228-255 | A column where a grapheme starts is left alone by the alignment. |
| `Text.Utf8` | src/editable_text.rs:136 | A typed character encodes to one to four bytes. It is a single byte exactly for ASCII, and the line feed encodes to the line-feed byte alone. |
| `TextInputs.UpsWalkBack` | src/ui/text_input.rs:133-139 | From a fresh prompt, `k` presses of Up walk back through the history, newest first. |
| `TextInputs.UpsStopAtOldest` | src/ui/text_input.rs:133-139 | Once the oldest entry is shown, more presses of Up keep showing it. |
| `TextInputs.DownsWalkForward` | src/ui/text_input.rs:140-146 | Below the newest entry, `k` presses of Down walk forward through the history. |
| `TextInputs.UpsThenDownsClear` | src/ui/text_input.rs:133-151 | Going `k` entries back and pressing Down `k` times ends on a cleared input past the newest entry. |
| `TextInputs.RememberedProperties` | src/ui/text_input.rs:48-54 | Remembering ends the history with the value and grows it by at most one. It never creates neighbouring repeats and is idempotent. |
| `TextInputs.Typed` | src/ui/text_input.rs:71-76 | A typed character becomes a line-feed grapheme exactly when it is a line feed. |
| `TextInputs.TextInput.Value` | src/ui/text_input.rs:62-64 | The value is the first line of the input. |
| `TextInputs.TextInput.Empty` | src/ui/text_input.rs:17-25 | A new input holds one empty line, no history, the default selection, and history position 1. |
| `TextInputs.TextInput.WithHistory` | src/ui/text_input.rs:27-36 | A new input holds one empty line and the given history, positioned after the newest entry and at least at 1. |
| `TextInputs.TextInput.WithValue` | src/ui/text_input.rs:38-46 | A new input holds the given line and no history. |
| `TextInputs.TextInput.Remember` | src/ui/text_input.rs:48-54 | The value is recorded unless it repeats the newest entry, and the position moves past the newest entry. The text is untouched. |
| `TextInputs.TextInput.MoveCursorTo` | src/ui/text_input.rs:85-87 | An Insert-mode move: the line and column are clamped to the input, and the anchor follows the head. |
| `TextInputs.TextInput.MoveCursorToEdge` | src/ui/text_input.rs:153-156 | Moving to column 0 or to the end of a line puts the cursor exactly there. |
| `TextInputs.TextInput.Clear` | src/ui/text_input.rs:56-60 | The input becomes one empty line with the cursor at its start, positioned past the newest entry. |
| `TextInputs.TextInput.Load` | src/ui/text_input.rs:135-136 | A history entry is shown with the cursor at its end. |
| `TextInputs.TextInput.InsertCharAtCursor` | src/ui/text_input.rs:71-83 | The grapheme's bytes go in at the cursor's byte offset. A line feed moves the cursor to the start of the next line. Anything else moves the head to the grapheme boundary that `grapheme_aligned` gives for one column right, clamped to the line. |
| `TextInputs.TextInput.DeleteToTheLeft` | src/ui/text_input.rs:97-123 | Something is deleted exactly when the cursor is not at the top left. Inside a line the grapheme left of the cursor goes and the cursor lands on its start. At the start of a later line the line joins the previous one. |
| `TextInputs.TextInput.DeleteGraphemeLeft` | src/ui/text_input.rs:98-112 | The first branch removes the grapheme left of the cursor and puts the cursor on its start. |
| `TextInputs.TextInput.JoinWithPrevious` | src/ui/text_input.rs:113-119 | The second branch removes the line feed before the cursor's line and puts the cursor at the end of the previous line. |
| `TextInputs.TextInput.GraphemeBytes` | src/ui/text_input.rs:99-108 | The walk over the line finds the byte span of the grapheme. |
| `TextInputs.TextInput.HandleKeyEvent` | src/ui/text_input.rs:125-176 | Left and Right move the cursor, and Left never moves it right. Up and Down walk the history. Home and End go to the ends of the line. Backspace and typing first move past the newest entry. Control-h and Control-l go to the ends of the line. Other keys change nothing. |
| `TextInputs.TextInput.RecallPrevious` | src/ui/text_input.rs:133-139 | Up shows the entry before the position, if there is one, with the cursor at its end. |
| `TextInputs.TextInput.RecallNext` | src/ui/text_input.rs:140-151 | Down shows the entry after the position with the cursor at its end, or clears the input past the newest entry. |
| `TextInputs.TextInput.TypeChar` | src/ui/text_input.rs:162-173 | A typed character moves past the newest entry and is then inserted. With Control held, `h` and `l` go to the ends of the line and other characters do nothing. |
| `TextInputs.TextInput.CursorLeft` | src/ui/text_input.rs:89-91 | The cursor goes one column left, stopping at column 0, onto the start of the grapheme it lands in. |
| `TextInputs.LeftOntoGrapheme` | src/ui/text_input.rs:89-91 | Moving one column left from inside a line lands on the start of the grapheme left of the cursor. |
| `Searches.BuildRegex` | src/search.rs:198-208 | The pattern is the query. It is case-insensitive exactly when the query has no uppercase character. It is absent exactly when the regex engine rejects the query. |
| `Searches.PickMatch` | src/search.rs:235-251 | The chosen match is one of the matches. |
| `Searches.ForwardPick` | src/search.rs:243-251 | A forward search lands on the first match starting after the offset. It wraps to the first match only when there is none. |
| `Searches.BackwardPick` | src/search.rs:235-242 | A backward search lands on the last match starting before the offset. It wraps to the last match only when there is none. |
| `Searches.PickForward` | src/search.rs:244-250 | The forward loop picks the match `PickMatch` describes. |
| `Searches.PickBackward` | src/search.rs:236-242 | The backward loop over the reversed matches picks the match `PickMatch` describes. |
| `Searches.Shifted` | src/search.rs:283-286 | Matches found in a slice starting at byte `start` are moved by `start` to document offsets, one for one. |
| `Searches.MatchesInPanics` | src/search.rs:275-287 | Once one range's bytes run backwards, so that slicing panics, any longer list of ranges panics too. |
| `Searches.MatchesInStep` | src/search.rs:275-287 | One more range appends its shifted matches after those of the ranges before it, or panics when its bytes run backwards. |
| `Searches.MatchesIn` | src/search.rs:273-287 | The matches of every selected range, shifted to document offsets, or the panic; `Searches.MatchesInPanics` and `Searches.RangeMatches` are stated about it. |
| `Searches.RangeMatches` | src/search.rs:276-286 | The matches inside one range are shifted to document offsets. There are none when its bytes run backwards. |
| `Searches.CollectMatches` | src/search.rs:273-287 | The loop over the selected ranges collects their matches in order. |
| `Searches.SearchState.constructor` | src/search.rs:31-37 | The default search state is unfocused, with no query, no result, no matches, and the default selection. |
| `Searches.SearchState.Search` | src/search.rs:210-261 | An empty query gives NoQuery. A query that does not compile gives InvalidRegex. No matches gives Empty, and these leave the match counters alone. Otherwise the total is the number of matches, the current match is the one picked from the start of the original primary range, and the result selects exactly that match. |
| `Searches.SearchState.SelectMatches` | src/search.rs:263-298 | An empty query gives NoQuery and a query that does not compile gives InvalidRegex. Otherwise the result is the matches inside every original range, in order, or Empty when there are none. A range whose bytes run backwards panics. |
| `Searches.SearchState.Update` | src/search.rs:54-81 | An unchanged query does nothing. Otherwise the query is stored and searched again, forwards or within every range. The document then selects what was found or goes back to the original position; an empty query stores NoQuery and an invalid one InvalidRegex, and both go back. |
| `Documents.BreakFree` | src/document.rs:133-135 | The length of a line never exceeds the distance to its line feed; a carriage return before the line feed belongs to the break. |
| `Documents.LinesLaid` | src/document.rs:133-135 | The lines of a rope lie inside it in order, each ending before the next begins. |
| `Documents.FirstLineExists` | src/document.rs:133-135 | A non-empty rope has a first line, and it starts at offset 0. |
| `Documents.NextBoundary` | src/document.rs:138-141 | The scan for a grapheme boundary stops at or after where it started and never beyond the end of the line. |
| `Documents.NextBoundaryIsFirst` | src/document.rs:138-141 | The position found is a boundary unless it is the end of the line, and no boundary lies between the start and it. |
| `Documents.CutsSpaced` | src/document.rs:134-146 | Every cut is a grapheme boundary strictly inside the line, and successive cuts are at least 10 000 bytes apart. |
| `Documents.ShortLineUncut` | src/document.rs:134-137 | A line of at most 10 000 bytes gets no cut. |
| `Documents.LongLineCut` | src/document.rs:134-144 | A longer line with a boundary at byte 10 000 is cut there first. |
| `Documents.ShiftedCuts` | src/document.rs:144 | One line's cuts, placed at the line's first byte, increase and stay inside that line. |
| `Documents.WrapPositionsIncreasing` | src/document.rs:133-147 | The wrap positions of all lines increase across the whole rope, and each lies inside the line it breaks. |
| `Documents.WrapPoints` | src/document.rs:133-147 | The positions to break at increase and each lies before the end of the rope. |
| `Documents.Wrapped` | src/document.rs:152-159 | Inserting a line feed before each position lengthens the rope by exactly the number of positions. |
| `Documents.HardWrapped` | src/document.rs:129-162 | The wrapped rope is longer than the loaded one by exactly the number of wrap points. |
| `Documents.WrappedSplit` | src/document.rs:152-159 | Line feeds inserted before position `q` leave every byte from `q` on unchanged. |
| `Documents.Staggered` | src/document.rs:144 | There is one stored offset per wrap position; each is the position moved on by the line feeds inserted before it. |
| `Documents.WrappedUpTo` | src/document.rs:152-159 | After `k` insertions the rope has grown by `k` bytes. |
| `Documents.WrapStep` | src/document.rs:152-159 | Inserting a line feed at the next stored offset of the partly wrapped rope wraps one more position. |
| `Documents.StaggeredBelow` | src/document.rs:144 | The stored offsets increase and all index into the wrapped rope. |
| `Documents.WrappedMarks` | src/document.rs:152-159 | The wrapped rope holds a line feed at every stored offset. |
| `Documents.WrappedLast` | src/document.rs:152-159 | The last inserted line feed splits the wrapped rope into the rope wrapped up to it, the line feed, and the untouched rest. |
| `Documents.WrappedRoundTrip` | src/document.rs:129-162 | Wrapping only adds line feeds: removing the bytes at the stored offsets gives back the original rope. |
| `Documents.PendingComposes` | src/document.rs:224-232 | Corrected: a transaction built by the corrected `change` (`Changes.Changed`) from ordered changes consumes the whole rope and produces the changed rope, and it composes onto a coherent pending transaction. The source's own `change` can emit `Delete(0)`/`Retain(0)`, and a later `compose` then panics (Findings). |
| `Documents.ComposedCoherent` | src/document.rs:234-266 | Applying a transaction and composing it onto the pending one keeps the pending transaction coherent: it still turns the saved old state into the current rope. |
| `Documents.Document.constructor` | src/document.rs:52-67 | A new document holds one line feed. It is writable, has no language and sits at revision 0 of a one-revision history. Its pane has the default selection, nothing is pending, and it is unmodified. |
| `Documents.Document.SelectionOf` | src/document.rs:216-218 | The result is present exactly when the pane has a selection, and then it is that selection. |
| `Documents.Document.SetSelection` | src/document.rs:220-222 | The pane's selection is replaced. Every other pane keeps its selection, and nothing else changes. |
| `Documents.Document.Save` | src/document.rs:200-207 | The current revision becomes the saved one, so the document is modified exactly when edits are pending. Nothing else changes. |
| `Documents.Document.Apply` | src/document.rs:234-266 | An empty transaction changes nothing. Otherwise it succeeds exactly when it fits the rope and composes onto the pending one. On success the rope is the applied result, the pending transaction is the composition, and the old state is recorded when nothing was pending. On failure nothing changes. The document's syntax tree and its update are not carried (see "Left out"). |
| `Documents.Document.Modify` | src/document.rs:224-232 | Corrected: a readonly document refuses the edit and is unchanged. Otherwise the rope becomes the changed rope, the transaction built by the corrected `change` is returned and composed onto the pending one, and the document stays valid. |
| `Documents.Document.ApplyChanges` | src/document.rs:224-266 | Corrected: the transaction built by the corrected `change` always fits: the rope becomes the changed rope and the pending transaction is the composition. The old state is the rope before the edit when nothing was pending. |
| `Documents.Document.CommitTransactionToHistory` | src/document.rs:268-280 | With nothing pending the history is untouched. Otherwise a new revision is appended as a child of the current one, holding the pending transaction and its origin. It becomes current, the document counts as modified, and the pending transaction is cleared. |
| `Documents.Document.UndoRedo` | src/document.rs:282-296 | Undo at the root changes nothing. Otherwise it moves to the parent and restores the origin's rope and selection. Redo without a child changes nothing; with one it moves to the last child and re-applies its transaction. In every case the pending transaction is dropped, and the document is modified exactly when the current revision is not the saved one. |
| `Documents.Document.HardWrapLongLines` | src/document.rs:129-162 | The rope becomes the hard-wrapped rope. The result and the readonly flag are true exactly when some line needed wrapping. When none did, nothing changes. |
| `Documents.Document.InsertLineFeeds` | src/document.rs:152-159 | Applying the line feeds one at a time at the stored offsets produces the rope wrapped at every position. |
| `Documents.Document.InsertLineFeed` | src/document.rs:153-158 | One insertion puts a line feed at the offset through its own transaction. |
| `Documents.WrapOffsets` | src/document.rs:131-147 | The collected offsets are the wrap points, each moved on by the line feeds before it. |
| `Documents.PlaceCuts` | src/document.rs:144 | Each cut of a line is stored at the line's first byte plus the cut plus the number of offsets already stored. |
| `Documents.LineCuts` | src/document.rs:134-146 | The scan over one line yields exactly the cuts `CutsSpaced` describes. |
| `Documents.SkipToBoundary` | src/document.rs:138-141 | The inner scan stops at the next boundary, or at the end of the line. |
| `Documents.Open` | src/document.rs:69-115 | The rope is the loaded bytes, hard-wrapped; an empty file becomes one line feed. The language is the one the path names, or else the one the shebang names. The document is readonly exactly when wrapping happened, and unmodified when it did not. The syntax tree built by `Syntax::new` is not carried (see "Left out"). |
| `Documents.Loaded` | src/document.rs:92-96 | The loaded rope is never empty; a non-empty file is taken as it is. |
| `Actions.ReplacedOne` | src/commands/actions.rs:246-258 | A single change of one byte range is ordered, and it replaces exactly that range with the text. |
| `Actions.ApplyOne` | src/commands/actions.rs:246-258 | Corrected: applying the one-change transaction, built by the corrected `change`, leaves the document valid, and its rope is the old rope with the range replaced. |
| `Actions.LinesTo` | src/commands/actions.rs:370 | The line the deletion stops before lies between the first deleted line and the end of the document. |
| `Actions.LinesLeft` | src/commands/actions.rs:365-389 | At least one line remains. Unless every line goes, exactly the deleted lines are missing. |
| `Actions.LineRangeBytes` | src/commands/actions.rs:372-375 | The bytes of lines `from..to` start at line `from` and end where line `to` starts. The document is the lines before, the range, and the lines after. |
| `Actions.SomeLinesDeleted` | src/commands/actions.rs:372-386 | Cutting the bytes from line `from` to line `to` leaves exactly the bytes of the other lines. |
| `Actions.AllLinesDeleted` | src/commands/actions.rs:377-380 | Deleting everything but the final line feed leaves one empty line. |
| `Actions.DeleteLines` | src/commands/actions.rs:365-389 | A blank document is left unchanged and the answer is false. Otherwise the answer is true and the rope becomes the remaining lines. Only ropes that end in a line feed are covered (see "Left out"). |
| `Actions.LinesRange` | src/commands/actions.rs:370-380 | The byte range is inside the rope, and cutting it leaves exactly the lines that `LinesLeft` keeps. |
| `Actions.LeftOf` | src/commands/actions.rs:326 | The grapheme left of the cursor is one whose columns cover the column just left of the cursor. |
| `Actions.DeletedLeftBytes` | src/commands/actions.rs:323-363 | The byte range is inside the rope, and cutting it is the same as removing that grapheme, or joining the line onto the previous one. |
| `Actions.DeletedLeftRoom` | src/commands/actions.rs:337-344 | The cursor position left behind lies on the lines that remain after the deletion. |
| `Actions.StepBackOnto` | src/commands/actions.rs:337 | Moving the cursor left from inside a grapheme, in either editing mode, lands on that grapheme's first column. |
| `Actions.DeleteToTheLeft` | src/commands/actions.rs:323-350 | There is no range exactly at the top-left corner, and then the cursor stays put. Inside a line, the range is the grapheme to the left and the cursor goes to its start. At a line start, the range is the line feed before it and the cursor goes up a line. The text is not changed. |
| `Actions.GraphemeRange` | src/commands/actions.rs:328-335 | The scan finds exactly the bytes of grapheme `k` on line `y`. |
| `Actions.DeleteSymbolToTheLeft` | src/commands/actions.rs:352-363 | Where nothing is deletable, neither the rope nor the lines change. Otherwise the lines lose the grapheme left of the cursor, or join onto the previous line. The rope always matches the lines. |
| `Actions.AtOrPastReaches` | src/commands/actions.rs:280-289 | A grapheme the scan stops at inside the line starts at or past the cursor's column. |
| `Actions.ReplacedBytes` | src/commands/actions.rs:276-292 | Replacing grapheme `i` writes the new grapheme's bytes over exactly the scanned byte range; at the line's end they are inserted there. |
| `Actions.ReplacedKeepsCursor` | src/commands/actions.rs:271-293 | After the replacement, the cursor's line still exists and is still as wide as the cursor's column. |
| `Actions.ReplaceRange` | src/commands/actions.rs:272-291 | The scan yields the byte range of the first grapheme at or past the cursor's column. Past the last grapheme it yields an empty range at the line's end. |
| `Actions.AppendOrReplaceCharacter` | src/commands/actions.rs:271-293 | The typed grapheme replaces the one at or past the cursor's column, or is appended at the line's end, and the rope matches the new lines. The cursor then moves one column right on its line, as `cursor_right` places it. |
| `Actions.OpenedBelow` | src/commands/actions.rs:308-310 | A line feed at the end of line `y` gives the same bytes as an empty line inserted after line `y`. |
| `Actions.OpenedAbove` | src/commands/actions.rs:317-318 | A line feed at the start of line `y` gives the same bytes as an empty line inserted before line `y`. |
| `Actions.InsertLineBelow` | src/commands/actions.rs:306-313 | An empty line appears after the cursor's line, the rope matches the new lines, and the cursor moves down to column 0 of the new line. Only ropes that end in a line feed are covered (see "Left out"). |
| `Actions.InsertLineAbove` | src/commands/actions.rs:315-321 | An empty line appears before the cursor's line, the rope matches the new lines, and the cursor is at column 0 of the new line. |
| `Actions.HalfPageUp` | src/commands/actions.rs:148-153 | The cursor moves up half the pane's height, stopping at the first line. The text and the sticky column are unchanged. |
| `Actions.HalfPageDown` | src/commands/actions.rs:155-160 | The cursor moves down half the pane's height, stopping at the last line. The text and the sticky column are unchanged. |
| `Languages.Run` | src/language/syntax.rs:1784 | A greedy run from `i` stays inside the line. It takes only characters of its class and stops before the first character outside it. |
| `Languages.CaptureAt` | src/language/syntax.rs:1784 | The capture group `([^\s\.\d]+)` is the longest non-empty run of name characters at `q`. It contains no space, dot or digit, and it fails exactly when the character at `q` cannot start a name. |
| `Languages.AfterEnv` | src/language/syntax.rs:1784 | `env\s+` matches only where the text reads `env` followed by at least one space, and ends after those spaces. |
| `Languages.AfterOption` | src/language/syntax.rs:1784 | `\-\S+\s+` matches only at a `-`, and ends past at least one option character and one space. |
| `Languages.CaptureAfterOptions` | src/language/syntax.rs:1784 | Whatever the option loop captures is a clean interpreter name. |
| `Languages.CaptureAfterSeparator` | src/language/syntax.rs:1784 | Whatever is captured after a path separator, with or without `env`, is a clean interpreter name. |
| `Languages.CaptureAfterPath` | src/language/syntax.rs:1784 | Whatever is captured after the path prefix `\S*[/\\]` is a clean interpreter name. |
| `Languages.ShebangCapture` | src/language.rs:242-252 | The anchored shebang pattern captures a clean name, and only on a line that starts with `#!`. |
| `Languages.EnvPathWord` | src/language/syntax.rs:1784 | On a `#!/usr/bin/env ` line, the path prefix ends after `/usr/bin/`, and `env` with its space follows it. |
| `Languages.EnvCapture` | src/language/syntax.rs:1784 | A `#!/usr/bin/env ` line names whatever the options after `env ` lead to. |
| `Languages.NoMoreOptions` | src/language/syntax.rs:1784 | Where no option starts, the name is captured right there. |
| `Languages.SkipOption` | src/language/syntax.rs:1784 | An option that the name follows is skipped. |
| `Languages.ShebangEnvPython` | src/language/syntax.rs:1784 | `#!/usr/bin/env python3` names `python`; the version digits are not part of the name. |
| `Languages.ShebangEnvOption` | src/language/syntax.rs:1784 | `#!/usr/bin/env -S deno run` names `deno`; the option to `env` is skipped. |
| `Languages.InitializeHighlight` | src/language.rs:124-148 | There is a configuration exactly when the highlights query is non-empty, the grammar (the language's own, defaulting to its id) loads and the queries compile. It then holds the highlights, injections and locals queries read for the language. |
| `Languages.LanguageConfiguration.constructor` | src/language.rs:52-121 | A new language keeps its id, globs, interpreters, grammar and injection regex. Its highlight configuration is not yet initialised. |
| `Languages.LanguageConfiguration.HighlightConfig` | src/language.rs:150-154 | The first call initialises the configuration and keeps it. Every later call returns the kept one, even a kept None. |
| `Languages.FileTypesRegistered` | src/language.rs:209-214 | A glob is registered with index `i` exactly when language `i` declares it. |
| `Languages.RegisteredFacts` | src/language.rs:216-218 | Inserting interpreter names keeps the old keys. Every name maps to the new index, and every other key keeps its index. |
| `Languages.ShebangsLastWins` | src/language.rs:216-218 | An interpreter is registered exactly when some language declares it. It maps to the last language that does. |
| `Languages.PushGlobs` | src/language.rs:210-214 | Adding globs fails exactly when one of them is invalid, where the source panics. Otherwise the globs are appended, tagged with the language's index. |
| `Languages.InsertShebangs` | src/language.rs:216-218 | The loop inserts every interpreter with the language's index, overwriting earlier entries. |
| `Languages.New` | src/language.rs:204-230 | Loading fails exactly when some glob is invalid. Otherwise the registry holds every glob of every language, in order, and every interpreter. |
| `Languages.At` | src/language.rs:239 | Looking up a language id succeeds exactly when the id is present and in range. |
| `Languages.LongestFrom` | src/language.rs:232-240 | The glob kept while scanning is one of the registry's globs. |
| `Languages.LongestMatchIsLongest` | src/language.rs:232-240 | There is no match only when no glob matches the path. Otherwise the chosen glob matches and its pattern is the longest; on equal lengths the last one wins. |
| `Languages.ForPath` | src/language.rs:232-240 | A language is found for a path only when some glob matches it. |
| `Languages.LoadedPathsResolve` | src/language.rs:232-240 | In a loaded registry, a path finds a language exactly when some glob matches it. |
| `Languages.ForShebang` | src/language.rs:242-252 | A language is found for a line only when the shebang pattern captures a name that the registry knows. |
| `Languages.LoadedShebangResolves` | src/language.rs:242-252 | In a loaded registry, a shebang line resolves exactly when some language declares the interpreter it names, and that language declares it. |
| `Languages.BestFrom` | src/language.rs:256-272 | The position kept while scanning is a language of the registry. |
| `Languages.BestInjectionIsLongest` | src/language.rs:256-272 | No language is picked exactly when no injection regex matches the name with positive length. Otherwise the pick has the longest match; on equal lengths the earliest wins. |
| `Languages.ForName` | src/language.rs:256-272 | The loop returns the language that `BestInjection` picks. |
| `Languages.ForInjection` | src/language.rs:274-286 | A name goes to the injection-regex lookup and a file name to the glob lookup. An interpreter is looked up exactly in the interpreter table, with no shebang pattern. |
| `SyntaxEdits.Step` | src/language/syntax.rs:890-946 | One turn of the loop consumes at least one operation and never moves the old offset backwards. |
| `SyntaxEdits.NextEdit` | src/language/syntax.rs:890-946 | One turn yields the edit, the next operation and the old end offset that `Step` describes. An insert followed by a delete is consumed as one replacement. |
| `SyntaxEdits.GenerateEdits` | src/language/syntax.rs:848-946 | The edits are those of every operation in turn, and an empty transaction yields none. |
| `SyntaxEdits.StepFacts` | src/language/syntax.rs:890-946 | One turn consumes exactly the old bytes between its two offsets. It yields at most one well-formed edit inside them, and that edit grows the text by what the turn's operations add beyond what they consume. |
| `SyntaxEdits.EditsOrdered` | src/language/syntax.rs:848-946 | The edits lie inside the old text, in order and without overlap, each well formed. So applying them from last to first never disturbs the offsets of those still to come. |
| `SyntaxEdits.EditsGrowth` | src/language/syntax.rs:848-946 | The edits account for the whole change in length that the transaction makes. |
| `SyntaxEdits.Moved` | src/language/syntax.rs:413-429 | A range behind an edit keeps its length, and both ends move by exactly what the edit grows the text. |
| `SyntaxEdits.InsertionAtStartInverts` | src/language/syntax.rs:445-449 | As written, inserting 10 bytes at the start of range 5..8 moves only the start, leaving 15..8, which ends before it starts. |
| `SyntaxEdits.ShiftAsWritten` | src/language/syntax.rs:403-459 | The per-edit range update as written, including the insertion-at-start arm that moves only the start; `SyntaxEdits.InsertionAtStartInverts` is stated about it. |
| `SyntaxEdits.Shift` | src/language/syntax.rs:403-459 | Corrected: updating a range for one edit always leaves a well-formed range, including for a pure insertion at its start. |
| `SyntaxEdits.EditAfterLeaves` | src/language/syntax.rs:407-410 | An edit that starts past the end of a range leaves the range and the flags alone. |
| `SyntaxEdits.EditBeforeMoves` | src/language/syntax.rs:413-449 | Corrected: an edit ending before a range, or a pure insertion at its start, moves both ends by what the edit grows the text and only adds MOVED to the flags. As written, the insertion at the start moves only the start (`SyntaxEdits.InsertionAtStartInverts`). |
| `SyntaxEdits.EditInsideModifies` | src/language/syntax.rs:431-459 | Any other edit touching a range sets the flags to MODIFIED. The end follows the text after the edit, or the edit's new end when the edit swallowed it. The start becomes the edit's new end only when the edit began before the range. |
| `SyntaxEdits.ShiftAll` | src/language/syntax.rs:403-460 | Corrected: applying the edits from last to first with the corrected `Shift` keeps the range well formed. |
| `SyntaxEdits.ShiftRanges` | src/language/syntax.rs:400-462 | Corrected: every range of the layer is updated with the corrected `Shift` and remains well formed, and there are as many ranges as before. |
| `SyntaxEdits.GeneratedWellFormed` | src/language/syntax.rs:848-946 | Every generated edit is well formed. |
| `SyntaxLayers.Excluded` | src/language/syntax.rs:1616-1655 | There is always at least one excluded range after a content node: the text after the node. |
| `SyntaxLayers.ClipGap` | src/language/syntax.rs:1657-1688 | The clipping loop only moves forward through the parent ranges. Every piece it yields is non-empty, inside the stretch being cut, and inside some parent range. |
| `SyntaxLayers.IntersectRanges` | src/language/syntax.rs:1605-1691 | Every range an injection is parsed in is non-empty, lies inside one of the parent layer's ranges, and lies inside a parsed stretch of one of the content nodes. |
| `SyntaxLayers.AllChildrenWholeNode` | src/language/syntax.rs:1616-1655 | When all children are included, nothing inside the node is excluded: the one stretch is the whole node. |
| `SyntaxLayers.CombinedIndex` | src/language/syntax.rs:533-538 | The pattern's position is its first occurrence among the combined-injection patterns. It is absent exactly when the pattern is not among them. |
| `SyntaxLayers.AddCombined` | src/language/syntax.rs:539-549 | A language marker replaces the entry's marker, and the included-children setting is always replaced. A content node is added, and the last end advanced, only when it starts at or after the last injection's end; otherwise the nodes and the end stay. |
| `SyntaxLayers.CollectMatches` | src/language/syntax.rs:526-573 | There is one entry per combined pattern. Every plain injection has non-empty, sound ranges for its own content node, and the content nodes of plain injections come in order without overlapping. |
| `SyntaxLayers.CollectCombined` | src/language/syntax.rs:575-585 | Every combined injection has non-empty ranges, each sound for the nodes of some entry. |
| `SyntaxLayers.LayerInjections` | src/language/syntax.rs:520-585 | Every injection of a layer has well-formed ranges. |
| `SyntaxLayers.ShiftRange` | src/language/syntax.rs:403-460 | Corrected: the loop over the edits updates a range as `ShiftAll` describes, with the corrected `Shift`. |
| `SyntaxLayers.ShiftLayerRanges` | src/language/syntax.rs:400-462 | Corrected: the loop over a layer's ranges updates them as `ShiftRanges` describes, with the corrected `Shift`. |
| `SyntaxLayers.RemarkLayer` | src/language/syntax.rs:393-470 | Corrected: the loop body re-marks one layer as `Remarked` describes, with the corrected `Shift`. |
| `SyntaxLayers.Remarked` | src/language/syntax.rs:393-462 | Corrected: re-marking keeps a layer's configuration, depth, parse state and parent, and with the corrected `Shift` its ranges stay well formed. |
| `SyntaxLayers.EditsPastLeave` | src/language/syntax.rs:407-410 | A range that every edit starts past keeps its place and its flags. |
| `SyntaxLayers.ShiftAllUntouched` | src/language/syntax.rs:403-460 | The edits never set TOUCHED on a range's layer. |
| `SyntaxLayers.LayerBeforeEditsKept` | src/language/syntax.rs:400-462 | A layer whose ranges all end before every edit starts keeps its ranges and flags. |
| `SyntaxLayers.RootRemarked` | src/language/syntax.rs:395-398 | The root layer is marked MODIFIED and keeps its range over the whole text. |
| `SyntaxLayers.RemarkLayers` | src/language/syntax.rs:393-471 | Every layer is re-marked and none is added or lost. The reuse table holds exactly the layers other than the root. |
| `SyntaxLayers.RemarkedValid` | src/language/syntax.rs:393-471 | Corrected: re-marking every layer with the corrected `Shift` keeps the layer map's invariant: depths, parents and well-formed ranges, with the root covering everything. |
| `SyntaxLayers.Syntax.constructor` | src/language/syntax.rs:314-349 | A new syntax tree holds only the root layer: depth 0, covering the whole text, not yet parsed. |
| `SyntaxLayers.Syntax.RemarkAll` | src/language/syntax.rs:393-471 | Every layer is re-marked under the edits, and the returned ids are all the layers except the root. |
| `SyntaxLayers.Syntax.InjectLayer` | src/language/syntax.rs:590-613 | The injected layer becomes a child of the current layer, one level deeper, with the injection's grammar and ranges. An identical existing layer is reused with only its parent changed. Otherwise a new layer is inserted under the next free id. |
| `SyntaxLayers.Syntax.Visit` | src/language/syntax.rs:481-509 | The layer is marked TOUCHED. It is parsed when it has no tree or was modified, and the result is false exactly when that parse fails. No other layer changes. |
| `SyntaxLayers.Syntax.InjectAll` | src/language/syntax.rs:587-614 | The injections are added below the layer. Every new layer is among the returned ones, and existing layers change at most their parent. |
| `SyntaxLayers.Syntax.VisitLayer` | src/language/syntax.rs:481-617 | After a successful turn the layer is touched and parsed. Configurations never change, and every new layer is queued. |
| `SyntaxLayers.Syntax.RunQueue` | src/language/syntax.rs:481-617 | When the queue finishes, the root and every newly added layer are touched and parsed, and the root's configuration is unchanged. |
| `SyntaxLayers.Syntax.Prune` | src/language/syntax.rs:623-626 | Exactly the touched layers are kept, with their flags cleared. |
| `SyntaxLayers.Syntax.Update` | src/language/syntax.rs:351-629 | The root keeps its configuration. A finished update leaves the root parsed and every remaining layer's flags cleared. |
| `SyntaxLayers.NewSyntax` | src/language/syntax.rs:314-349 | A new syntax tree, when its first update succeeds, is valid, has the given configuration at its root, and has the root parsed. |
| `HighlightIter.Key` | src/language/syntax.rs:1304-1327 | A layer has no key exactly when it has neither a next capture nor a pending end. The key carries the negated depth. A start key is the next capture's start, strictly before the innermost pending end. An end key is the innermost pending end, at or before the next capture, so an end wins a tie. |
| `HighlightIter.KeyOrder` | src/language/syntax.rs:1300-1327 | Keys order boundaries by offset; at one offset an end comes before a start, and at one offset and kind the deeper layer comes first. Two layers tie only at the same offset, kind and depth. |
| `HighlightIter.LessEqOrder` | src/language/syntax.rs:1304 | The key order is a total order: transitive, total and antisymmetric. |
| `HighlightIter.PlaceSkips` | src/language/syntax.rs:1046-1054 | Placing the first layer moves it past every leading layer whose key is smaller. |
| `HighlightIter.Place` | src/language/syntax.rs:1044-1063 | Where `sort_layers` moves the first layer: past every layer with a smaller key. |
| `HighlightIter.Reordered` | src/language/syntax.rs:1042-1075 | The layer order `sort_layers` produces; `HighlightIter.ReorderedInOrder` states that it is in key order and a permutation. |
| `HighlightIter.PlaceMembers` | src/language/syntax.rs:1044-1063 | Placing keeps the placed layer and brings in no layer that was not there. |
| `HighlightIter.PlaceKeeps` | src/language/syntax.rs:1044-1063 | When every other layer has a key, placing drops none: the result is a permutation. |
| `HighlightIter.PlaceInOrder` | src/language/syntax.rs:1044-1063 | Placing a layer that has a key among layers in key order leaves them all in key order. |
| `HighlightIter.ReorderedInOrder` | src/language/syntax.rs:1042-1075 | When the layers after the first are in key order, `sort_layers` leaves all of them in key order. The result holds the same layers, less the first when it had no key. |
| `HighlightIter.PlaceFirst` | src/language/syntax.rs:1044-1063 | The scan puts the first layer where `Place` puts it. |
| `HighlightIter.SortedLayers` | src/language/syntax.rs:1042-1075 | The loop computes `Reordered` of the layers. |
| `HighlightIter.HighlightIter.constructor` | src/language/syntax.rs:694-706 | A new iterator starts at the range's start with no pending event, and its layers are those `sort_layers` leaves. |
| `HighlightIter.HighlightIter.SortLayers` | src/language/syntax.rs:1042-1075 | The layers become `Reordered` of the old layers; the offset and the pending event stay. |
| `HighlightIter.HighlightIter.EmitEvent` | src/language/syntax.rs:1022-1040 | Text not yet emitted up to `offset` goes out first, as one span from the last emitted offset, and the event waits. Otherwise the event goes out unchanged. The emitted offset never moves back, and the layers are re-sorted either way. |
| `HighlightIter.MatchLen` | src/language/syntax.rs:1469-1478 | A scope matches exactly when its dot-separated segments begin the capture's, and then it counts all its segments. |
| `HighlightIter.BestScope` | src/language/syntax.rs:1465-1484 | The scope `configure` chooses for a capture; `HighlightIter.BestScopeIsLongest` characterises it. |
| `HighlightIter.BestScopeIsLongest` | src/language/syntax.rs:1455-1489 | A scope is chosen exactly when some scope's segments begin the capture's. The chosen scope matches and names the most segments, and no earlier scope names as many. |
| `HighlightIter.MatchSegments` | src/language/syntax.rs:1469-1478 | The inner loop says that a scope matches exactly when its segments begin the capture's, and then counts them. |
| `HighlightIter.ScopeFor` | src/language/syntax.rs:1465-1484 | The scope loop for one capture chooses the scope `BestScope` names. |
| `HighlightIter.Configure` | src/language/syntax.rs:1455-1489 | There is one index per capture name, and each is the best scope for that name. |
| `HighlightIter.ConfigureExample` | src/language/syntax.rs:1455-1489 | With one-character segment names and `m` different from `b`: among the scopes `f`, `f.m` and `f.b`, the capture `f.b.c` is highlighted with `f.b`. |
| `Queries.DirectiveAt` | src/language/syntax.rs:1787-1788 | An `inherits` directive matches only at a `;`. It consumes at least that character and captures a non-empty language list drawn only from `[a-z_,()-]`. The pattern's `\s` is ASCII white space. |
| `Queries.ReadQuery` | src/language/syntax.rs:1786-1804 | `read_query` with `inherits` directives expanded within a recursion bound; `Queries.PlainQueryRead`, `Queries.ReadQueryMonotone`, `Queries.OneDirective` and `Queries.SelfInheritingQuery` are stated about it. |
| `Queries.NoDirectiveKept` | src/language/syntax.rs:1793-1803 | Text without a `;` holds no directive and is copied unchanged. |
| `Queries.PlainQueryRead` | src/language/syntax.rs:1786-1804 | A query file without directives reads as it is, and a missing one reads as the empty string. |
| `Queries.ReadQueryMonotone` | src/language/syntax.rs:1786-1804 | Once a query can be read within a recursion bound, a larger bound reads the same text. |
| `Queries.ShortDirective` | src/language/syntax.rs:1787-1788 | `;inherits x`, naming a one-letter language, is a directive that spans the whole text and captures `x`. |
| `Queries.OneDirective` | src/language/syntax.rs:1793-1803 | A text that is one directive naming one language reads as that language's query, with a newline before and after it. |
| `Queries.InheritsExpanded` | src/language/syntax.rs:1786-1804 | A query of `b` that is one directive inheriting a language `c`, whose own query `x` holds no directive, reads as `x` between newlines. |
| `Queries.SelfInheritanceDiverges` | src/language/syntax.rs:1786-1804 | A query that is one directive naming its own language is never read to the end, whatever the bound: the source's recursion does not return. |
| `Queries.SelfInheritingQuery` | src/language/syntax.rs:1786-1804 | A query of `a` that inherits `a` is never read to the end. |
| `FileBrowser.CmpNames` | src/components/files.rs:35 | Two path components compare Equal exactly when they are the same. |
| `FileBrowser.CmpNamesFlip` | src/components/files.rs:35 | Swapping two components flips the comparison. |
| `FileBrowser.CmpNamesTrans` | src/components/files.rs:35 | Component order is transitive. |
| `FileBrowser.CmpPaths` | src/components/files.rs:35 | Two paths compare Equal exactly when they are the same path. |
| `FileBrowser.CmpPathsFlip` | src/components/files.rs:35 | Swapping two paths flips the comparison. |
| `FileBrowser.CmpPathsTrans` | src/components/files.rs:35 | Path order is transitive. |
| `FileBrowser.PathsTotal` | src/components/files.rs:35 | Of two different paths, exactly one is less than the other. |
| `FileBrowser.HasLeast` | src/components/files.rs:524 | A non-empty set of paths has a least element, the one `pop_first` takes. |
| `FileBrowser.Drain` | src/components/files.rs:524-526 | Draining a set yields each of its paths exactly once, in ascending order. |
| `FileBrowser.CmpEntries` | src/components/files.rs:33-39 | A directory sorts before a file and a file after a directory. Two directories, or two files, compare by path. |
| `FileBrowser.EntryOrderTotal` | src/components/files.rs:33-39 | The listing comparator is a total order, as `sort_by` requires: swapping flips it, it is transitive, and only equal entries compare Equal. |
| `FileBrowser.DirectoriesFirst` | src/components/files.rs:28-42 | In a sorted listing every directory comes before every file. |
| `FileBrowser.Parent` | src/components/files.rs:345 | A path's parent drops exactly its last component, and only the root has none. |
| `FileBrowser.Selected` | src/components/files.rs:252 | There is a selected path exactly when the row index is inside the listing, and then it is that row's path. |
| `FileBrowser.NewColumn` | src/components/files.rs:88-100 | A new column lists the entries of its directory. It selects the given file when that file is listed, and the first row otherwise. |
| `FileBrowser.Target` | src/components/files.rs:269-323 | A motion is refused exactly at the edge it moves towards. Up and down move one row; top and bottom go to the first and last rows. Half a page moves by half the column's height, saturating at the first row and clamped to the last. |
| `FileBrowser.MotionKeepsRange` | src/components/files.rs:269-323 | Every motion keeps an in-range selection in range. |
| `FileBrowser.Remember` | src/components/files.rs:252-257 | The position cache records the column's selected path for its directory. Every other entry is kept, and nothing else is added. |
| `FileBrowser.ChainPrefix` | src/components/files.rs:247-251 | Closing columns from the right keeps each remaining column's directory selected in the column to its left. |
| `FileBrowser.ChainReselect` | src/components/files.rs:269-323 | Moving the selection in the last column keeps the chain of selected directories. |
| `FileBrowser.ChainClamped` | src/components/files.rs:676-682 | Pulling out-of-range rows back into range keeps the chain, because a linked column already selects an in-range row. |
| `FileBrowser.ColumnWidth` | src/components/files.rs:1120-1124 | A column is at most 52 cells wide, and the active one never exceeds the area. |
| `FileBrowser.ShiftLeft` | src/components/files.rs:1130-1132 | Every remaining column moves left by the dropped column's width, and nothing else changes. |
| `FileBrowser.DropFirst` | src/components/files.rs:1127-1133 | Dropping the leftmost column leaves a packed strip, narrower by that column's width, starting at the next column. |
| `FileBrowser.LayoutAsWritten` | src/components/files.rs:1109-1147 | As written, the layout panics exactly when a column left of the active one exists and the area is narrower than 17 cells. |
| `FileBrowser.PlaceUpToActive` | src/components/files.rs:1126-1145 | One turn for a column up to the active one keeps a packed strip. Leftmost columns are dropped only while another 17-cell column would not fit, and the strip fits the area once the active column is placed. |
| `FileBrowser.Layout` | src/components/files.rs:1109-1147 | The drawn columns are consecutive, include the active one, and fit the area. Columns to the right stop only when the next would not fit. A column on the left is dropped only when it would not fit beside those up to the active one. |
| `FileBrowser.StartAt` | src/components/files.rs:207-224 | With no path the browser opens the working directory, and a directory opens itself. A file opens its parent, selecting the file. A missing path opens its parent (or the working directory for the root). There is no result exactly where the source fails. |
| `FileBrowser.Files.constructor` | src/components/files.rs:207-245 | The browser opens with one column, active, over the directory, selecting the file when given. The file is cached as the directory's position. Nothing is marked or yanked, and the mode is browsing. |
| `FileBrowser.Files.CloseChildren` | src/components/files.rs:247-258 | Exactly the columns up to the active one remain, and the cache records the active directory's selection. Nothing else changes. |
| `FileBrowser.Files.MoveBy` | src/components/files.rs:269-323 | When a motion can move, the active column's row changes, the columns to its right close, and the cache records the new row. Otherwise nothing changes. The selection stays in range. |
| `FileBrowser.Files.GotoPath` | src/components/files.rs:260-267 | The first row that is the path or one of its ancestors is selected. When there is none, the row stays. No other column changes. |
| `FileBrowser.Files.Mark` | src/components/files.rs:408-423 | The yanked paths are forgotten. A selected row is toggled in the marked set, with all other marks unchanged, and the selection moves down as `move_down` does. |
| `FileBrowser.Files.CopySelection` | src/components/files.rs:425-444 | With marks, the marked and yanked sets swap and the count is the number yanked. Otherwise the selected row becomes the only yanked path; when it was yanked already, every yanked path is cleared. The result is absent exactly when nothing new is yanked. |
| `FileBrowser.Files.Yank` | src/components/files.rs:446-453 | The paste action becomes Copy, and the marked and yanked sets change as `copy` changes them: with marks the two swap; otherwise the selected row becomes the only yanked path, or nothing is yanked when it already was. Columns, the active column, the position cache and the state are unchanged. The reported count is the size of the new yanked set, present exactly when something new is yanked. |
| `FileBrowser.Files.Cut` | src/components/files.rs:455-462 | The paste action becomes Move, and the marked and yanked sets change as `copy` changes them: with marks the two swap; otherwise the selected row becomes the only yanked path, or nothing is yanked when it already was. Columns, the active column, the position cache and the state are unchanged. The reported count is the size of the new yanked set, present exactly when something new is yanked. |
| `FileBrowser.Files.TryDelete` | src/components/files.rs:516-534 | The paths to confirm are the marked ones, each once in ascending order, or else the selected row. The confirmation opens only when there is at least one. Marks are cleared. |
| `FileBrowser.Files.Escape` | src/components/files.rs:695-704 | Esc clears the marks if there are any, else the yanked paths if there are any, else it dismisses the browser. |
| `FileBrowser.Files.ParentDir` | src/components/files.rs:338-353 | Left of the first column, the parent directory opens in front, selecting the old directory, and is cached. Otherwise the column to the left becomes active. Either way the marks clear, and at the root nothing happens. |
| `FileBrowser.Files.Select` | src/components/files.rs:355-382 | A selected file is returned. A selected directory that is not yanked becomes the active column, opened with its cached selection when nothing is open to its right, and the marks clear. Anything else is Invalid and changes nothing. |
| `FileBrowser.Files.RepositionCursor` | src/components/files.rs:676-682 | Every row index past the end of its listing is pulled back to the last row, and in-range rows stay. |
| `FileBrowser.Clamp` | src/components/files.rs:677-681 | The loop clamps each column into range and changes nothing else. |

## Left out

- Terminal output, the event loop, the debounce thread and process start-up: they are I/O and concurrency.
- File-system effects: reading and writing files, metadata and timestamps, `read_dir`, deleting, copying, moving, renaming and adding paths. A file's contents and its readonly bit are parameters of `Documents.Open`.
- `Document::reload`, `cwd_relative_name`, `filename_display`, `was_changed` and `syntax_highlights` (src/document.rs:21-34, 117-125, 178-214, 298-319): they read the clock, the file system or the tree-sitter highlighter.
- Tree-sitter itself: parsing, query construction and the captures that queries yield are parameters (`SyntaxLayers.TreeSitter`, `Languages.Engines`). So are the local-variable tracking of `HighlightIter::next` and the `PARSER` thread-local.
- Globs, regular expressions, grapheme segmentation, display widths, Unicode categories and Unicode case: each is a function parameter, or a value carried by the grapheme. None is reimplemented.
- The `SHEBANG` pattern and `read_query`'s `inherits` pattern (`Queries.DirectiveAt`) are written out over ASCII `\s` and `\d`. Unicode white space and digits beyond ASCII are not modelled.
- Tree-sitter rows and columns (`Point`, `point_add`, `point_sub`): edits and layer ranges are modelled on byte offsets only, and the rows follow the bytes.
- Integer widths are modelled where the source saturates, wraps or casts: `u16` rectangles, `saturating_sub`, and the wrapping `u16` cursor sum in `Scrolls`. Elsewhere `usize` is an unbounded `nat`.
- The duplicate `Loader` in src/language/syntax.rs:191-284 is the same as src/language.rs and is modelled once. Likewise `gutter_and_document_areas` and `compute_offset` in src/panes.rs:13-39 are copies of src/gutter.rs:7-33, modelled once in `Gutters`.
- Rendering: `render` of the compositor, panes, gutter lines, views, text inputs, modals and search. Only their arithmetic (layouts, boxes, borders, corners, line-number modes, visible byte ranges) is modelled.
- Function values stored in the source's data (key-bound actions, compositor callbacks, component trait objects) are modelled as opaque tokens that the model passes through in order.
- Wrapper actions in src/commands/actions.rs that only forward to a modelled `EditableText` or `Document` method: mode switches, single cursor moves, `goto_*`, `undo`/`redo` and `switch_pane_*`. Also `append_character`, `append_new_line`, `delete_current_line`, `delete_until_eol` and `change_until_eol` (src/commands/actions.rs:87-244, 260-269, 295-304, 391-434), which compose the modelled delete and insert actions.
- `EditableText::insert_str_at_cursor` and `EditableText::from` (src/editable_text.rs:54-77, 147-151): the string's grapheme split is an engine result, and the modelled `InsertCharAtCursor` covers one grapheme.
- Search key handling, `revert_position` and the status messages set through `set_status` (src/search.rs:49-52, 85-188): they are UI dispatch around the modelled `Update`, `Search` and `SelectMatches`.
- The file browser's incremental search (`to_lowercase`), `start_rename`/`start_add`, `paste`, `rename`, `add`, `refresh_columns` and `open`: they act on the file system or on Unicode case.
- `sorted_entries` (src/components/files.rs:28-42): the comparator at lines 33-39 is modelled and proved a total order (`FileBrowser.EntryOrderTotal`). The directory read and the `sort_by` call are not: a listing is any sequence in comparator order.
- `Documents.PendingComposes`: built on the corrected `Changes.Changed`, as the Findings row for src/history.rs:126-137 explains. The source's `modify` (src/document.rs:224-232) uses `change` as written, whose `Delete(0)`/`Retain(0)` make a second `modify` before a commit panic in `compose`. That panic is shown by `Changes.RawChangeComposePanics` and is not reproduced along the document edit path.
- `Documents.Document.Modify`: builds its transaction with the corrected `Changes.Changed`, not the source's `change` as written, so it never reaches the `compose` panic that the source can.
- `Documents.Document.ApplyChanges`: the same corrected `change`; "the transaction always fits and composes" holds for it, not for the source's.
- `Actions.ApplyOne`: edits through `Documents.Document.ApplyChanges`, so it rests on the corrected `change` too. So do the actions built on it (`Actions.DeleteLines`, `Actions.DeleteSymbolToTheLeft`, `Actions.AppendOrReplaceCharacter`, `Actions.InsertLineBelow`, `Actions.InsertLineAbove`).
- `EditableTexts.EditableText.MoveCursorTo`: aligns with the corrected `EditableTexts.Aligned` (src/selection.rs's `!= Insert` test), not with src/editable_text.rs:243-248 as written (`EditableTexts.AlignedAsWritten`). So do `CursorLeft`, `CursorRight`, `InsertCharAtCursor`, `DeleteToTheLeft`, the `Goto*` methods of `EditableTexts.EditableText`, and the actions that move its cursor.
- `SyntaxEdits.EditBeforeMoves`: states the corrected `SyntaxEdits.Shift` for a pure insertion at a range's start. As written (src/language/syntax.rs:445-449, `SyntaxEdits.ShiftAsWritten`) only the start moves and the range can end before it starts.
- `SyntaxEdits.ShiftAll`: folds the corrected `Shift`; well-formedness does not hold of the source's loop.
- `SyntaxEdits.ShiftRanges`: the corrected `Shift` over every range of a layer.
- `SyntaxLayers.ShiftRange`: the loop of `Syntax::update` (src/language/syntax.rs:400-462) is modelled with the corrected `Shift`.
- `SyntaxLayers.ShiftLayerRanges`: likewise with the corrected `Shift`.
- `SyntaxLayers.RemarkLayer`: re-marks with the corrected `Shift`.
- `SyntaxLayers.Remarked`: "ranges stay well formed" holds with the corrected `Shift` only. The same goes for `SyntaxLayers.RemarkLayers`, `SyntaxLayers.Syntax.RemarkAll` and `SyntaxLayers.Syntax.Update`, which re-mark through it.
- `SyntaxLayers.RemarkedValid`: the preserved well-formedness holds with the corrected `Shift` only.
- Panics on character boundaries: the text is raw bytes, so `compose`'s `replace_range` and `split_off` on an insert's string (src/history.rs:254, 276), `invert`'s `byte_slice` (src/history.rs:322), and `apply`'s `rope.delete`/`rope.insert` (src/history.rs:342-344) cannot fail at a position inside a multi-byte character as they can in the source.
- `Buffers.Placements`: the `u16` sum `x += width` of `put_truncated_str` (src/ui/buffer.rs:185) is unbounded. Before each step `x` is below the right edge, itself a `u16`, so it overflows only for a grapheme starting in the last columns of a 65535-column buffer.
- `Actions.DeleteLines`: requires the rope to be the view's lines each ended by a line feed (`DocBytes`), so a file whose last line has no line feed, which src/document.rs:92-95 loads as it is, is not covered. On such a rope `delete_lines` still takes one byte off the end when deleting through the last line (src/commands/actions.rs:377-380), as if a line feed were there: deleting every line of "ab" deletes only bytes 0..1 and leaves "b".
- `Actions.InsertLineBelow`: the same representation. On the last line of a rope without a final line feed, such as "ab", `o` inserts the line feed at offset 2, which only ends that line: no empty line appears below and `cursor_down` has no line to move to. `Actions.DeleteSymbolToTheLeft`, `Actions.AppendOrReplaceCharacter` and `Actions.InsertLineAbove` carry the same requirement; their byte ranges do not depend on the final line feed, but they too are stated only for ropes that end in one.
- `Documents.Document.Apply`: the document's `syntax` field is not carried. The source runs `Syntax::update` on it after every apply (src/document.rs:255-265), and so after every undo and redo, and sets it to `None` when the parser fails, switching highlighting off for that buffer. `SyntaxLayers.Syntax.Update` models that update on its own.
- `Documents.Open`: the syntax tree that `load_from_path` builds with `Syntax::new` when the language has a highlight configuration (src/document.rs:101-105) is not carried; `SyntaxLayers.NewSyntax` models that construction on its own.
- `Searches.SearchState.Search` and `Searches.SearchState.SelectMatches`: results are byte spans. The conversion of each span into a cursor range with `Range::from_byte_range` (src/search.rs:255, 284) is not modelled, because it needs the rope's line and grapheme layout at each byte.
- `FileBrowser.Files.ParentDir`: the column chain (each column lists the directory selected in the column before it) is kept only when the parent's listing contains the old directory. The file system does not promise that.
- `TransactionLaws.DoubleInversion`: inverting the inversion is proved to have the same effect on the original rope as the transaction. The structural equality of the two operation lists that the source's test compares is not proved.
- `SyntaxLayers.IntersectRanges`: every emitted range is proved non-empty, inside a parent range and outside the excluded children. That every such stretch is emitted is not proved.
- `SyntaxLayers.Syntax.Update`: the queue of layers to visit runs for at most `fuel` visits. The source's queue has no bound and stops only when no new layer is enqueued. A pass that reaches the bound ends with a distinct result, and the contract speaks of passes that finish.
- `SyntaxLayers.Syntax.RunQueue`: bounded by `fuel` in the same way.
- `Queries.ReadQuery` expands `inherits` directives within a recursion bound `fuel`, because the source's recursion has no cycle protection.
- A layer's depth is a `nat`; the source's `u32` is never exceeded in a finite pass.
- `HighlightIter.HighlightIter.constructor` receives the layers that `highlight_iter` collects. Collecting them needs tree-sitter cursors, so the model starts from the list and sorts it with the modelled `sort_layers`.
- `injection_pair` and `injection_for_match` read the captures of a query match. The model starts from what they return, a language marker and a content node.

## Findings

| source | as written | input that shows it | evidently intended | confidence | as-written member | corrected member |
|---|---|---|---|---|---|---|
| src/history.rs:126-137 | `change` pushes `Delete(end - start)` and the trailing `Retain` directly, without the coalescing builders, so it can emit `Delete(0)` and `Retain(0)`; `compose` hits `unreachable!` on them | rope "ab\n", one change 3..3 inserting "x": gives Retain(3), Insert("x"), Delete(0), Retain(0), which cannot be composed with Retain(4) | build the operations with `retain`/`delete`/`insert`, which drop empty amounts | not executed | `Changes.RawChangeComposePanics` | `Changes.ChangedComposes` |
| src/components/alert.rs:28 | `break_into_lines` reserves capacity with `width / max_width`, dividing by zero when `max_width` is 0 | an alert on an area at most six columns wide with a non-empty body: the box width `min(55, area_width * 8 / 10, …)` is at most 4, so the text width passed in is 0 | no division, or a non-zero floor for `max_width` | not executed | `Alerts.NarrowAlertPanics` | `Alerts.BreakIntoLines` |
| src/editable_text.rs:273-280 | `goto_line_first_non_whitespace` stops at the first grapheme that IS whitespace, and uses its grapheme index as a column | line "  ab": the cursor goes to column 0, not 2; line "ab c": it goes to the space at column 2, not 0 | stop at the first grapheme that is not whitespace, at its column | not executed | `EditableTexts.FirstNonWhitespaceAsWrittenMisses` | `EditableTexts.EditableText.GotoLineFirstNonWhitespace` |
| src/editable_text.rs:243-248 | `ensure_cursor_is_on_grapheme_boundary` tests `mode == Insert` where src/selection.rs tests `!= Insert`, so Normal mode may end past the last cursor column | Normal mode, a line holding one two-column grapheme, a move right to column 1: as written the cursor lands at column 2, past `max_cursor_x` = 1 | the same test as src/selection.rs | not executed | `EditableTexts.AlignedAsWrittenLeavesRange` | `EditableTexts.AlignedInRange` |
| src/language/syntax.rs:445-449 | a pure insertion at a range's start moves only the start | inserting 10 bytes at byte 5 of the range 5..8 leaves 15..8, which ends before it starts | move both ends by the inserted length | not executed | `SyntaxEdits.InsertionAtStartInverts` | `SyntaxEdits.Shift` |
| src/components/files.rs:1128 | the column layout drops columns left of the active one with `pop_front().unwrap()` until they fit, panicking once the deque is empty | two columns, the second one active, an area 16 cells wide: the first column (17 cells) never fits, and the deque runs empty | stop dropping when the deque is empty | not executed | `FileBrowser.LayoutAsWritten` | `FileBrowser.Layout` |
