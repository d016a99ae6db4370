# ASCII canvas: a verified model of the drawing engine, gallery store and app shell

The application is a browser ASCII-art editor. The user draws on an 80 × 40 grid of integer
densities (0 to 10), and each density is shown as a glyph from a light-to-dark table. Pointer strokes
paint Bresenham lines. Every paint raises a cell and may bleed one unit into each orthogonal
neighbour. Pointer-down pushes a snapshot onto a bounded undo history. Published pieces are kept,
newest first, in a list under one browser-storage key. The app shell switches between gallery,
editor and viewer, and the viewer steps to the previous or next artwork.

The model is split into modules that follow the program:

- `Types` (types.dfy): the records (`Artwork`, `View`, the value form of a grid) and `findIndex` by
  identifier.
- `Constants` (constants.dfy): grid size, the glyph table, `MAX_DENSITY` and the seed artwork.
  - The seed's `Math.sqrt` test becomes an exact squared-distance test (< 100, < 225).
  - Each `Math.random()` draw becomes a parameter `draw(x, y)` in [0, 1).
- `AsciiArt` (ascii_art.dfy): the density-to-glyph mapping and the rendering of rows joined by
  newlines. It also holds a model of `split('\n')` used to state the line structure of the text.
- `Raster` (raster.dfy): the editor's painting and line walk as values.
  - `Paint` is `setCellValue` on a grid value.
  - `PaintAlong` paints a sequence of cells.
  - `Line` is the sequence of cells `drawLine` visits, defined by iterating one loop step (`Step`)
    under the walk invariant `Inv`.
- `Canvas` (canvas.dfy): the editor session as a class.
  - The grid is an `array2<int>` updated in place. A ghost field `cells` holds its contents as a value, and `Valid()` ties the two cell by cell.
  - The class also holds the undo history (a sequence of grid values), the drawing flag, the last
    sampled cell, and the publishing and exporting guards.
  - The handlers are methods proved against the `Raster` functions.
- `Storage` (storage.dfy): the store key as a `Slot` with three cases: absent (null or empty), a
  stored list, or a read/parse that throws. `getArtworks`, `saveArtwork` and `getArtworkById` are
  methods of a `Store` class.
- `App` (app.dfy): the shell's state (`view`, `selectedArtId`, the list read by the effect keyed on
  `view`), `currentArtIndex` and `currentArt`, navigation and screen transitions.

The random bleed decision (`Math.random() > 0.8`) is an injected oracle:
- `SetCellValue` takes `coin(k)` for neighbour k, in the order (0,1), (0,-1), (1,0), (-1,0).
- `DrawLine` and `PointerMove` take `bleed(n, k)` for the n-th cell they paint.

Every property holds for every oracle. The identifier generator and `Date.now()` are parameters.
Each possibly failing storage write is a boolean parameter saying whether it succeeded.

## Model

| member | source | states |
|---|---|---|
| Types.IndexOfId | App.tsx:18 | the result is the first position whose identifier matches, or -1 exactly when none matches |
| Types.IndexOfOwnId | App.tsx:18 | with distinct identifiers, looking up the identifier found at position k gives k |
| Constants.TableFacts | constants.ts:6-20 | MAX_DENSITY is the table length minus one, which is 10, and entry 0 is the blank |
| Constants.CharMapGlyphsAreSingle | constants.ts:6-18 | with the corrected table (darkest glyph U+2588), every entry is one character and only entry 0 is the blank |
| Constants.AsWrittenDarkestIsThreeChars | constants.ts:17 | the darkest entry as written is three characters and differs from the full block |
| Constants.SeedCell | constants.ts:29-34 | cells within distance 10 of (40, 20) get 5..9, cells at distance in [10, 15) get 1..3, and all others get 0 |
| Constants.SeedGridWellFormed | constants.ts:26-36 | the seed grid has 40 rows of 80 cells, every cell lies in [0, MAX_DENSITY], and each cell is the ring value of its own draw |
| Constants.InitialArtworks | constants.ts:22-38 | the initial collection is one artwork, with id "seed-1", the seed grid, and a time 10000000 ms before load |
| AsciiArt.GlyphIn | components/ASCIIArt.tsx:14 | a density inside the table picks its own entry, and a density at or past the last index picks the darkest |
| AsciiArt.GlyphBlankIffZero | components/ASCIIArt.tsx:14 | the glyph is the blank exactly for density 0, and densities from MAX_DENSITY up show the darkest glyph |
| AsciiArt.Rows | components/ASCIIArt.tsx:13-14 | one line per grid row; with a table free of line breaks no line holds one, and with one-character glyphs each line is as wide as its row |
| AsciiArt.RowTextHasNoNewline | components/ASCIIArt.tsx:14 | a row's text contains no newline when no glyph does |
| AsciiArt.RowTextWidth | components/ASCIIArt.tsx:14 | with one-character glyphs a row's text has one character per cell, character x being the glyph of cell x |
| AsciiArt.RenderLines | components/ASCIIArt.tsx:13-15 | splitting the rendered text at newlines gives back exactly the row lines, so there are rows − 1 separators and none trailing |
| AsciiArt.RenderIsGridShaped | components/ASCIIArt.tsx:13-15 | with the corrected table, the rendered grid is 40 lines of 80 characters each |
| AsciiArt.AsWrittenRowTooWide | constants.ts:17 | with the table as written, a single darkest cell renders as three characters; with the corrected table it renders as one |
| Raster.NeighborIndex | components/Canvas.tsx:48 | the position of an offset in the neighbour list, or -1 exactly when it is not a neighbour offset |
| Raster.Set | components/Canvas.tsx:46 | the written cell takes the value and every other cell keeps its own |
| Raster.BleedOneCell | components/Canvas.tsx:50-55 | neighbour k's bleed raises that neighbour (clamped) exactly when its coin is true and changes no other cell |
| Raster.BleedUpToCell | components/Canvas.tsx:48-57 | after the first k neighbours, a cell among them in bounds is raised by one (clamped) exactly when its coin is true, and every other cell is unchanged |
| Raster.PaintEffect | components/Canvas.tsx:42-60 | an out-of-range or saturated target leaves the whole grid unchanged; otherwise the target becomes min(v + increment, MAX_DENSITY), each in-bounds neighbour either stays or becomes min(v + 1, MAX_DENSITY) as its coin says, and no other cell changes |
| Raster.PaintKeepsBoundsAndGrows | components/Canvas.tsx:46-54 | with a non-negative increment every cell stays in [0, MAX_DENSITY] and no cell decreases |
| Raster.PaintAlongKeepsBoundsAndGrows | components/Canvas.tsx:69-70 | any sequence of unit paints keeps every cell in [0, MAX_DENSITY] and lowers none |
| Raster.PaintAlongSnoc | components/Canvas.tsx:69-70 | painting one more cell paints it over the grid the earlier cells left, with the next paint index |
| Raster.ErrAfterClosedForm | components/Canvas.tsx:67-80 | after i steps along x and j along y the error term is dx·(1 + j) − dy·(1 + i) |
| Raster.StartInv | components/Canvas.tsx:63-67 | the walk invariant holds before the first iteration |
| Raster.EndLineFacts | components/Canvas.tsx:72-80 | on the end column the error term keeps x still, and on the end row it keeps y still |
| Raster.IdentityStep | components/Canvas.tsx:73-80 | the two guarded error updates keep the closed form with the step counts advanced |
| Raster.StepKeepsErr | components/Canvas.tsx:72-80 | after a step the step counts stay within the segment and the error term is again the closed form for them |
| Raster.StepKeepsBand | components/Canvas.tsx:72-80 | after a step the error term stays in the band that makes the major axis move |
| Raster.StepKeepsInv | components/Canvas.tsx:72-80 | a step away from the endpoint keeps the walk invariant |
| Raster.StepMoves | components/Canvas.tsx:72-80 | a step moves each coordinate by 0 or one unit toward its endpoint (not both by 0), always along the major axis, and one step closer to the end |
| Raster.WalkSucc | components/Canvas.tsx:69-81 | the state after t + 1 iterations is one step from the state after t |
| Raster.LineFromAt | components/Canvas.tsx:69-81 | cell t of the walk is where the loop stands after t iterations, that state keeps the invariant, and it is the endpoint exactly at the last cell |
| Raster.LineAt | components/Canvas.tsx:69-81 | cell t of the line is the loop's position after t iterations, and the loop breaks exactly after painting the last cell |
| Raster.LineFromEndsAndLength | components/Canvas.tsx:69-81 | the walk ends at (x1, y1) and visits one cell per remaining major-axis step plus one |
| Raster.LineFromConnected | components/Canvas.tsx:72-80 | consecutive cells differ by at most one in each coordinate, and each coordinate moves monotonically toward its endpoint |
| Raster.LineFromMajorAxis | components/Canvas.tsx:72-80 | the major-axis coordinate of the k-th cell is k steps from the start |
| Raster.LineSteps | components/Canvas.tsx:62-82 | cell k of the line has made k steps along the major axis and has passed neither endpoint |
| Raster.LineShape | components/Canvas.tsx:62-82 | the line starts at (x0, y0), ends at (x1, y1), has max(\|dx\|, \|dy\|) + 1 cells and is 8-connected and monotone |
| Raster.LineStraight | components/Canvas.tsx:62-82 | horizontal, vertical and 45° lines are exactly the cells on the segment, in order |
| Canvas.PushBounded | components/Canvas.tsx:94 | the snapshot is appended last, the history keeps at most 50 entries, and the rest is the newest part of the old history |
| Canvas.PushKeepsSnapshots | components/Canvas.tsx:94 | pushing a well-formed snapshot keeps every snapshot in the history well formed |
| Canvas.PushThenPop | components/Canvas.tsx:94 | removing the last entry after a push gives the snapshot back and the old history (less the evicted oldest entry when it was full) |
| Canvas.Advance | components/Canvas.tsx:72-80 | the two guarded updates of one loop iteration are exactly one step of the walk |
| Canvas.StrokeCells | components/Canvas.tsx:107-112 | a move paints from the last sampled cell (or only the new cell when there is none) and ends on the new cell |
| Canvas.GlyphParity | components/Canvas.tsx:176 | the export and the screen pick the same glyph for every density |
| Canvas.ExportSkipsExactlyBlank | components/Canvas.tsx:174-184 | the export draws a glyph at a cell exactly when its density is positive, and that glyph is the one the screen shows |
| Canvas.Editor.constructor | components/Canvas.tsx:14-24 | a fresh 40 × 80 grid of zeros, empty history, not drawing, publishing or exporting, no last cell |
| Canvas.Editor.Snapshot | components/Canvas.tsx:94 | the row-by-row copy equals the live grid |
| Canvas.Editor.WriteCell | components/Canvas.tsx:46 | the live grid becomes the old one with that cell set, and nothing else in the session changes |
| Canvas.Editor.BleedNeighbour | components/Canvas.tsx:49-56 | the grid becomes neighbour k's bleed of the old grid |
| Canvas.Editor.BleedNeighbours | components/Canvas.tsx:48-57 | the grid becomes the bleed of all four neighbours in order |
| Canvas.Editor.SetCellValue | components/Canvas.tsx:42-60 | the live grid becomes Paint of the old grid, so no cell decreases and bounds are kept |
| Canvas.Editor.PaintNext | components/Canvas.tsx:69-70 | painting cell n of a walk, with the first n already painted, leaves the first n + 1 painted |
| Canvas.Editor.DrawLine | components/Canvas.tsx:62-82 | the loop terminates, and the live grid becomes the old grid painted along Line, cell by cell in order |
| Canvas.Editor.PointerDown | components/Canvas.tsx:92-102 | when busy nothing changes; otherwise the pre-stroke grid is pushed (keeping 50), drawing starts, and the sampled cell, if any, is painted and remembered |
| Canvas.Editor.PointerMove | components/Canvas.tsx:104-116 | nothing changes unless drawing, not busy and sampled; then the grid is painted along the stroke cells and the new cell remembered |
| Canvas.Editor.PointerUp | components/Canvas.tsx:118-121 | drawing stops and the last cell is forgotten |
| Canvas.Editor.Undo | components/Canvas.tsx:123-129 | a no-op when the history is empty or the session busy; otherwise the grid becomes a fresh copy of the last snapshot and the history loses exactly that entry |
| Canvas.Editor.KeyDown | components/Canvas.tsx:31-40 | Ctrl/Cmd with 'z' undoes the latest snapshot, and is a no-op when the history is empty or the session busy; any other key changes nothing; the stroke state and the flags never change |
| Canvas.Editor.Publish | components/Canvas.tsx:131-138 | refused when busy; otherwise the session enters publishing and hands over the current grid |
| Canvas.Editor.BeginExport | components/Canvas.tsx:140-142 | refused while exporting; otherwise the session enters exporting |
| Canvas.Editor.EndExport | components/Canvas.tsx:195-197 | the session leaves exporting |
| Canvas.StrokeThenUndo | components/Canvas.tsx:92-129 | a whole stroke followed by an undo restores every cell, and the history too when it was not full |
| Storage.ReadIsIdempotent | services/storageService.ts:20-31 | an absent or unreadable slot reads as the initial collection, a second read returns the same collection whatever the writes did, and after a successful seeding nothing more is written |
| Storage.FindById | services/storageService.ts:55 | a record is found exactly when some record has the identifier, and the one found has it and is in the list |
| Storage.FindByIdIsFirstMatch | services/storageService.ts:55 | the record found is the one at the first matching position |
| Storage.FindAfterPrepend | services/storageService.ts:43 | after a prepend the new identifier finds the new record, and every other identifier finds what it found before |
| Storage.Store.constructor | services/storageService.ts:3-5 | the store starts from a given slot, and its fallback collection is the initial artworks |
| Storage.Store.GetArtworks | services/storageService.ts:20-31 | returns the stored list, or the initial collection when the key is absent or unreadable; an absent key is seeded only when that write succeeds |
| Storage.Store.SaveArtwork | services/storageService.ts:34-51 | returns the record built from the given id, grid and time; a successful write stores it in front of the collection read, and a failed write leaves the slot as the read left it |
| Storage.Store.GetArtworkById | services/storageService.ts:53-56 | returns the first record of the collection read with that identifier, if any |
| Storage.SaveThenRead | services/storageService.ts:34-51 | after a successful save the collection has grown by one, the new record first, the earlier ones after it in order, and the new id finds it |
| App.ArtIndex | App.tsx:18 | −1 exactly when nothing (or the empty string) is selected or nothing matches; otherwise the first position holding the selected id |
| App.ViewerShownExactly | App.tsx:52 | the viewer shows exactly on the viewer screen with a non-empty selected id that some record carries, and it shows the first such record |
| App.OfferedByPosition | App.tsx:56-57 | while the viewer shows record i, next is offered exactly when i is not last and previous exactly when i is not first |
| App.NavigationMovesByOne | App.tsx:21-31 | with distinct non-empty ids, next moves the current index up by one when offered and keeps it otherwise; previous moves it down by one when offered and keeps it otherwise |
| App.NextThenPrev | App.tsx:21-31 | with distinct non-empty ids, previous after next returns to the same selection |
| App.Shell.constructor | App.tsx:10-16 | the gallery with nothing selected, and the list the first store read returns |
| App.Shell.Refresh | App.tsx:14-16 | the list becomes what the store read returns; screen and selection are kept |
| App.Shell.Select | App.tsx:37-40 | from the gallery: the id becomes the selection, the viewer opens, and the list is re-read |
| App.Shell.Create | App.tsx:41 | from the gallery: the editor opens and the list is re-read |
| App.Shell.LeaveEditor | App.tsx:47-48 | cancel or publish: back to the gallery, and the list is re-read |
| App.Shell.Back | App.tsx:55 | from the viewer: back to the gallery with the selection kept, and the list is re-read |
| App.Shell.Next | App.tsx:21-25 | selects the record after the current index when that index is below the last; otherwise the selection is kept |
| App.Shell.Prev | App.tsx:27-31 | selects the record before the current index when that index is above 0; otherwise the selection is kept |
| App.PublishAndReturn | components/Canvas.tsx:131-138 | publishing with a successful write returns to the gallery, whose list starts with the new artwork followed by the old collection |

## Left out

- `getCoords` (components/Canvas.tsx:84-90): floating-point mapping from the pointer to a cell. The handlers take the cell (or its absence) directly.
- PNG export plumbing: font loading, canvas context, `measureText`, `toDataURL` and the download link. Only the glyph choice and the export guard are modelled.
- Timing: the `setTimeout` in `handlePublish` and the awaits in the export. Each handler is one atomic step; publish is split into `Publish` (enter publishing, hand over the grid) and the save, and export into `BeginExport` and `EndExport`.
- React's batched state updates and stale closures. For example, the key handler's effect lists only `history` and `isPublishing`, so a stale `isExporting` is possible. The model reads the current state.
- `syncState` and the `gridState` copy: they only schedule a re-render.
- `Math.random`: modelled by oracles (`coin`, `bleed`, `draw`), not as a distribution.
- `generateId` and `Date.now()`: parameters, taken as given. Identifier uniqueness is assumed only where a lemma says so (`WellKeyed`).
- JSON serialisation and the browser storage API: reduced to `Slot`. A stored value that parses to something other than a list of artworks is not modelled.
- `console.error` logging.
- components/Gallery.tsx and components/ArtworkViewer.tsx: pure presentation.
- `Glyph`, `Render` and `ExportGlyph` use the corrected darkest glyph U+2588; the table as written at constants.ts:17 is kept as `CharMapAsWritten` and appears only in the Findings lemmas.
- Canvas.Editor.SetCellValue: requires a non-negative increment. The source's default increment is 1, and every caller passes it.
- AsciiArt.GlyphIn: requires a non-negative density. A negative density would index outside the table, but no grid from the editor or the seed holds one.
- Storage.Store.SaveArtwork: the record's identifier is a parameter; the fallback chain of `generateId` is not modelled.
- App.PublishAndReturn: states only the successful write. Failed writes are covered by `Storage.Store.SaveArtwork`.
- App.Shell.Back: requires the viewer to be shown, since the callback exists only then. Likewise `Select` and `Create` require the gallery, and `LeaveEditor` the editor.

## Findings

| source | as written | input that shows it | evidently intended | confidence | as-written member | corrected member |
|---|---|---|---|---|---|---|
| constants.ts:17 | the darkest glyph is the three characters U+00E2 U+2013 U+02C6, a mis-decoded full block | a row holding one cell of density 10 renders as three characters instead of one, so the line is wider than its row | the single full block U+2588, as used at components/Canvas.tsx:156 | high; not executed | AsciiArt.AsWrittenRowTooWide | AsciiArt.RenderIsGridShaped |
