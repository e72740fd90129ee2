# valokuvaus-cv: the photo gallery's decision logic in Dafny

valokuvaus-cv is a photography portfolio. A React front end shows photos on an endlessly pannable grid, and an admin panel filters the photo list and uploads photos one at a time or in bulk. An Express/SQLite back end stores the photos.

This project models the logic between the plumbing, as immutable datatypes and pure functions:

- **Grid** (`InfiniteGrid`, `GridConfig`):
  - the breakpoint table;
  - the debounced resize;
  - the padded window of lattice cells around the viewport;
  - the photo each cell shows, and where it is placed;
  - the 5 px threshold before the grid adopts a new scroll position.
- **Panning** (`DragScroll`, `Gallery`): the mouse, touch and wheel state machine of `useDragScroll`, and that machine wired to the grid as the public page wires it.
- **Admin filter** (`AdminFilter`): the six-stage photo filter, with JavaScript's loose comparisons written out.
- **Upload forms** (`Metadata`, `UploadForm`, `BulkUpload`, `CloseConfirm`):
  - the single-photo and bulk forms;
  - their shared metadata merge and camera description;
  - the unsaved-changes confirmation of the two modals.
- **Server** (`Server`): the back end's decisions:
  - the upload file filter and `path.extname`;
  - the stored file name;
  - bearer-token extraction;
  - the login, category and upload guards;
  - the category delete guard;
  - the photo delete and update routes, which answer 404 for an unknown id;
  - how SQLite types the values the upload route stores.
- **Shared** (`Text`, `Basics`): the JavaScript string operations all of the above rely on, with their laws:
  - `trim`, `split`, `join`, `includes`, `toLowerCase`;
  - `<=` on strings;
  - `Number(...)` on decimal text.

Timers, animation frames and clocks are explicit events or parameters. I/O results (EXIF data, upload results, token verification) also arrive as parameters.

## Model

| member | source | states |
|---|---|---|
| GridConfig.Resolve | valokuvauscv/src/hooks/useGridConfig.js:13-36 | Every width selects exactly one of the five layouts: at most 480 gives phone, 481-768 tablet, 769-1919 desktop (the two last branches coincide), 1920-2559 full HD, and 2560 up ultra. Each layout has height:width = 3:2 and a positive gap. |
| GridConfig.ResolveIsTableLookup | valokuvauscv/src/hooks/useGridConfig.js:18-33 | The if-chain agrees, for every width, with an independent ascending table of thresholds read as "last row reached". |
| GridConfig.LookupSelects | valokuvauscv/src/hooks/useGridConfig.js:18-33 | In any ascending threshold table, a width between row i's threshold and row i+1's selects row i. |
| GridConfig.ResolveMonotone | valokuvauscv/src/hooks/useGridConfig.js:18-33 | Columns, photo width, photo height and gap never decrease as the window widens. |
| GridConfig.ConfigsHavePositiveCells | valokuvauscv/src/hooks/useGridConfig.js:4-33 | Every configuration the hook can hold, including its initial one, has cells of positive width and height. |
| GridConfig.Mount | valokuvauscv/src/hooks/useGridConfig.js:45 | Mounting applies the layout for the current width at once, with no timer pending. |
| GridConfig.OnResize | valokuvauscv/src/hooks/useGridConfig.js:38-43 | A resize replaces any pending timer with one due 100 ms later and leaves the layout alone. |
| GridConfig.OnTick | valokuvauscv/src/hooks/useGridConfig.js:42 | When the clock reaches a due timer, the layout for the width at that moment is applied and the timer is gone. Before that, nothing changes. |
| GridConfig.Unmount | valokuvauscv/src/hooks/useGridConfig.js:47-52 | Cleanup cancels the pending timer and keeps the layout. |
| GridConfig.BurstKeepsOneTimer | valokuvauscv/src/hooks/useGridConfig.js:38-43 | However many resizes arrive in a row, the layout is untouched and exactly one timer is pending, due 100 ms after the last resize. |
| GridConfig.TickBeforeDueIsIgnored | valokuvauscv/src/hooks/useGridConfig.js:38-43 | A tick less than 100 ms after the latest resize changes nothing. |
| InfiniteGrid.FloorDiv | valokuvauscv/src/components/InfiniteGrid.js:93 | `Math.floor(a/d)` for a positive divisor: the q with q*d <= a < q*d + d. |
| InfiniteGrid.CeilDiv | valokuvauscv/src/components/InfiniteGrid.js:94 | `Math.ceil(a/d)` for a positive divisor: the q with q*d - d < a <= q*d. |
| InfiniteGrid.AxisSpan | valokuvauscv/src/components/InfiniteGrid.js:84-96 | Along one axis, the first index is the cell holding `-scroll - 8*cell`, and the last is the ceiling cell of `-scroll + extent + 8*cell`. |
| InfiniteGrid.AxisSpanNonEmpty | valokuvauscv/src/components/InfiniteGrid.js:84-96 | A span always holds more than the 16 buffer cells. |
| InfiniteGrid.VisibleWindow | valokuvauscv/src/components/InfiniteGrid.js:84-96 | On both axes the window starts at least eight cells before the viewport, ends at least eight cells past it, and holds more than 16 indices. |
| InfiniteGrid.AxisSpanCovers | valokuvauscv/src/components/InfiniteGrid.js:87-96 | Every point from 8 cells before the viewport to 8 cells after it lies in a cell of the span. |
| InfiniteGrid.WindowCoversViewport | valokuvauscv/src/components/InfiniteGrid.js:87-96 | The cell under any point of the viewport is in the window, on both axes. |
| InfiniteGrid.AxisSpanBounded | valokuvauscv/src/components/InfiniteGrid.js:84-96 | A span holds at most `extent/cell + 19` indices, whatever the scroll offset. |
| InfiniteGrid.WindowBounded | valokuvauscv/src/components/InfiniteGrid.js:84-102 | The window holds at most `(height/cellH + 19) * (width/cellW + 19)` cells, independent of the scroll offset. |
| InfiniteGrid.TileIndex | valokuvauscv/src/components/InfiniteGrid.js:104 | The photo index is below n and congruent to `\|row + col\|` modulo n. |
| InfiniteGrid.PlaceTile | valokuvauscv/src/components/InfiniteGrid.js:104-120 | A cell shows one of the photos, keyed by its row, column and photo id, and with a non-negative gap its box lies inside its own cell. |
| InfiniteGrid.TileSymmetries | valokuvauscv/src/components/InfiniteGrid.js:104-105 | Cells on one anti-diagonal show the same photo, and so do the cells (r, c) and (-r, -c). |
| InfiniteGrid.TilePeriodic | valokuvauscv/src/components/InfiniteGrid.js:104 | Where row + col >= 0, the pattern repeats every n columns. |
| InfiniteGrid.TilesDoNotOverlap | valokuvauscv/src/components/InfiniteGrid.js:114-120 | With a non-negative gap, the boxes of two different cells are separated horizontally or vertically. |
| InfiniteGrid.CellAtInWindow | valokuvauscv/src/components/InfiniteGrid.js:101-102 | The k-th step of the two nested loops visits a cell inside the window. |
| InfiniteGrid.VisiblePhotos | valokuvauscv/src/components/InfiniteGrid.js:74-127 | Loading or no photos gives no tiles. Otherwise there is one tile per window cell, and each shows photo `\|row+col\| mod n`, has the key of its row, column and photo id, and is placed at (col*cellW, row*cellH) with the photo's size. |
| InfiniteGrid.VisibleCoversWindow | valokuvauscv/src/components/InfiniteGrid.js:101-121 | Completeness: every cell of the window appears among the tiles, at its row-major position. |
| InfiniteGrid.CellAtRowMajor | valokuvauscv/src/components/InfiniteGrid.js:101-102 | A later loop step visits a later row, or the same row at a later column. |
| InfiniteGrid.VisibleRowMajor | valokuvauscv/src/components/InfiniteGrid.js:101-124 | Tiles come in strictly increasing (row, column) order. |
| InfiniteGrid.VisibleKeysDistinct | valokuvauscv/src/components/InfiniteGrid.js:110 | The keys of the returned tiles are pairwise distinct. |
| InfiniteGrid.CommitScroll | valokuvauscv/src/components/InfiniteGrid.js:60-66 | The grid adopts a reported position exactly when it moved more than 5 px on some axis, and otherwise keeps the old one. Either way the result is within 5 px of the report. |
| InfiniteGrid.CommitScrollIdempotent | valokuvauscv/src/components/InfiniteGrid.js:60-66 | Reporting the same position again commits nothing new. |
| DragScroll.DistanceSq | valokuvauscv/src/hooks/useDragScroll.js:52-55 | The squared distance is non-negative, and zero exactly when the two points coincide. |
| DragScroll.SetScrollPosition | valokuvauscv/src/hooks/useDragScroll.js:13-18 | The position is stored, and handed to the callback exactly when one is registered. |
| DragScroll.ThrottledUpdate | valokuvauscv/src/hooks/useDragScroll.js:21-29 | A new request replaces the pending frame, so one frame at most is pending, carrying the latest position. |
| DragScroll.Frame | valokuvauscv/src/hooks/useDragScroll.js:26-28 | The frame commits the pending position, if any, and forwards it to a registered callback. Without one pending it changes nothing. |
| DragScroll.Press | valokuvauscv/src/hooks/useDragScroll.js:32-40 | A press starts a drag with zero distance, anchored so that dragStart + scroll is the pointer. |
| DragScroll.TrackMove | valokuvauscv/src/hooks/useDragScroll.js:48-58 | An accepted move schedules `pointer - dragStart`. Its distance is zero exactly when the pointer is at dragStart + committed scroll. |
| DragScroll.MouseMove | valokuvauscv/src/hooks/useDragScroll.js:42-60 | A mouse move is ignored entirely, `lastUpdate` included, when not dragging or within 32 ms of the last accepted move. Otherwise it is tracked and stamps the time. |
| DragScroll.TouchMove | valokuvauscv/src/hooks/useDragScroll.js:79-94 | A touch move is ignored when not dragging, is never time-throttled, and leaves `lastUpdate` alone. |
| DragScroll.Release | valokuvauscv/src/hooks/useDragScroll.js:62-66 | A release stops the drag, keeps the distance and starts one reset timer. |
| DragScroll.SettleTimer | valokuvauscv/src/hooks/useDragScroll.js:65 | A reset timer clears the distance and nothing else. |
| DragScroll.Wheel | valokuvauscv/src/hooks/useDragScroll.js:103-112 | The wheel subtracts its deltas (a missing delta counts as 0) and commits at once. |
| DragScroll.Subscribe | valokuvauscv/src/hooks/useDragScroll.js:125-127 | Registering the callback changes nothing else. |
| DragScroll.Cleanup | valokuvauscv/src/hooks/useDragScroll.js:115-119 | Cleanup cancels the pending frame and nothing else. |
| DragScroll.Step | valokuvauscv/src/hooks/useDragScroll.js:13-127 | Only wheel events and frames with a pending position notify the callback, and only they move the committed position. |
| DragScroll.PressThenMoveInPlace | valokuvauscv/src/hooks/useDragScroll.js:35-49 | Continuity: a press followed by a move at the same point schedules, and then commits, exactly the scroll position held at the press. |
| DragScroll.IdleMovesIgnored | valokuvauscv/src/hooks/useDragScroll.js:79-80 | Mouse and touch moves outside a drag leave the state unchanged and notify nobody. |
| DragScroll.WheelInverse | valokuvauscv/src/hooks/useDragScroll.js:103-111 | A wheel of (dx, dy) followed by one of (-dx, -dy) restores the state exactly. |
| DragScroll.BurstCommitsLatest | valokuvauscv/src/hooks/useDragScroll.js:79-94 | A burst of moves during a drag commits nothing and leaves one pending frame, for the latest pointer; the frame then commits that position. |
| DragScroll.DistanceSinceLastCommit | valokuvauscv/src/hooks/useDragScroll.js:87-93 | Once a move to p is committed, the next move's distance is measured from p, not from the press point. |
| DragScroll.ReleaseThenSettle | valokuvauscv/src/hooks/useDragScroll.js:96-100 | The distance survives a release until a reset timer runs, which zeroes it. |
| Gallery.PageStep | valokuvauscv/src/App.js:71-81 | On each input event, the grid either keeps its position or takes the controller's newly committed one. |
| Gallery.StepKeepsInSync | valokuvauscv/src/components/InfiniteGrid.js:60-71 | One event keeps the grid within 5 px of the controller's committed position on each axis. |
| Gallery.RunKeepsInSync | valokuvauscv/src/components/InfiniteGrid.js:60-71 | Over any sequence of input events, the grid never drifts more than 5 px from the committed position on either axis. |
| Gallery.MountedStaysInSync | valokuvauscv/src/App.js:77-81 | From mount onward, the rendered position stays in sync. |
| AdminFilter.SetField | valokuvauscv/src/components/AdminPanel.js:225-230 | Only the named filter field changes. |
| AdminFilter.ClearFilters | valokuvauscv/src/components/AdminPanel.js:232-241 | All six filter fields become empty. |
| AdminFilter.LooseEqualsNumber | valokuvauscv/src/components/AdminPanel.js:87-90 | JavaScript's `==` between a stored flag and the number a boolean converts to: `null` equals neither number, and the decimal text of a number equals it. |
| AdminFilter.DateAtLeast | valokuvauscv/src/components/AdminPanel.js:93-95 | `date >= from`: a photo dated on the bound passes, and a photo with a NULL date fails a bound that is not a number. |
| AdminFilter.DateAtMost | valokuvauscv/src/components/AdminPanel.js:96-98 | `date <= to`: a photo dated on the bound passes, and a photo with a NULL date fails a bound that is not a number. |
| AdminFilter.Test | valokuvauscv/src/components/AdminPanel.js:71-105 | The six `filtered.filter` predicates: an empty search matches every photo, and the category, type and camera tests fail when the photo lacks that value. |
| AdminFilter.SelectedBy | valokuvauscv/src/components/AdminPanel.js:69-108 | The selection is an order-preserving subsequence, and holds exactly the photos passing every listed filter, each as many times as it occurs in the input. |
| AdminFilter.Stage | valokuvauscv/src/components/AdminPanel.js:72-106 | An empty filter text leaves the list alone. Otherwise exactly the photos failing the test are dropped, and every passing photo keeps all its occurrences. |
| AdminFilter.StageIsSelection | valokuvauscv/src/components/AdminPanel.js:72-106 | A stage, active or not, equals selection by its one field. |
| AdminFilter.SelectedByAllPassing | valokuvauscv/src/components/AdminPanel.js:69-108 | Filtering a list whose photos all pass changes nothing. |
| AdminFilter.AllPassAppend | valokuvauscv/src/components/AdminPanel.js:69-108 | Passing two lists of filters together means passing each list. |
| AdminFilter.SelectedByFuse | valokuvauscv/src/components/AdminPanel.js:69-108 | Two filter passes in a row equal one pass with both sets of criteria. |
| AdminFilter.SelectedBySameCriteria | valokuvauscv/src/components/AdminPanel.js:69-108 | Criteria that agree on every photo select the same list. |
| AdminFilter.ApplyStages | valokuvauscv/src/components/AdminPanel.js:69-106 | The chain of stages equals selection by all their fields at once. |
| AdminFilter.FieldsComplete | valokuvauscv/src/components/AdminPanel.js:72-106 | The six stages together test exactly the reference predicate "passes every filter". |
| AdminFilter.FilterPhotos | valokuvauscv/src/components/AdminPanel.js:68-109 | The result is an order-preserving subsequence of the photos, and holds exactly those matching every active filter, each as many times as it is listed. |
| AdminFilter.StageOrderIrrelevant | valokuvauscv/src/components/AdminPanel.js:72-106 | Any order of the six stages yields the same list. |
| AdminFilter.FilterPhotosIdempotent | valokuvauscv/src/components/AdminPanel.js:68-109 | Filtering the filtered list again changes nothing. |
| AdminFilter.ClearedShowsAll | valokuvauscv/src/components/AdminPanel.js:72-106 | With the filters cleared, every photo is listed, in order. |
| AdminFilter.SearchIgnoresCase | valokuvauscv/src/components/AdminPanel.js:72-79 | The search query's case does not affect the result. |
| AdminFilter.CategoryFilterSelectsId | valokuvauscv/src/components/AdminPanel.js:82-84 | A category filter holding a category id's text keeps exactly the photos of that category. |
| AdminFilter.PhotoTypeOnNumericFlag | valokuvauscv/src/components/AdminPanel.js:87-90 | On numeric flags, "black_white" keeps the photos stored as 1, and the other setting keeps those stored as 0. |
| AdminFilter.DateBoundsInclusive | valokuvauscv/src/components/AdminPanel.js:93-98 | Both date bounds are inclusive under string order. A lower bound after the date, or an upper bound before it, drops the photo. |
| AdminFilter.CameraFilterNeedsCamera | valokuvauscv/src/components/AdminPanel.js:101-105 | An active camera filter drops every photo without a camera description. |
| AdminFilter.TextFlagMatchesNoType | valokuvauscv/src/components/AdminPanel.js:87-90 | A type flag stored as the text "true" or "false" passes neither type setting. |
| AdminFilter.UndatedPhotoOutsideDateRange | valokuvauscv/src/components/AdminPanel.js:93-98 | A photo with a NULL date fails any date bound in YYYY-MM-DD form. |
| AdminFilter.EmptyDatePhotoBounds | valokuvauscv/src/components/AdminPanel.js:93-98 | A photo stored with an empty date, which is how the upload forms send a missing date, passes every "Date To" bound and fails every non-empty "Date From" bound. |
| Metadata.Set | valokuvauscv/src/components/UploadForm.js:121-127 | Setting a field by name changes that field only. |
| Metadata.Or | valokuvauscv/src/components/UploadForm.js:106-111 | `a \|\| b` on strings: the first when it is non-empty, else the second; empty only when both are. |
| Metadata.Merge | valokuvauscv/src/components/UploadForm.js:105-112 | Each field takes the extracted value when it is non-empty and otherwise keeps the user's value; it is empty only when both are. |
| Metadata.MergeLaws | valokuvauscv/src/components/UploadForm.js:105-112 | Merging empty metadata keeps the form. Merging into an empty form gives the extraction. Merging the same extraction twice is merging it once. |
| Metadata.CameraInfo | valokuvauscv/src/components/BulkUploadForm.js:69-74 | The description is the make and the model that are present, joined by one space, or empty when neither is. |
| Metadata.CameraInfoSplits | valokuvauscv/src/components/UploadForm.js:74-79 | When neither part contains a space, splitting the description at the space gives the make and the model back. |
| UploadForm.PickFile | valokuvauscv/src/components/UploadForm.js:90-119 | No file changes nothing. A file replaces the image and preview, merges extracted metadata (or keeps the fields when none was read), sets the "extracted" flag and marks the form dirty. |
| UploadForm.Input | valokuvauscv/src/components/UploadForm.js:121-127 | Only the named field takes the typed text, and the form is dirty. |
| UploadForm.ChooseTypeAsWritten | valokuvauscv/src/components/UploadForm.js:324-330 | The type select sets the flag from the option's text and, as wired, leaves the dirty flag unchanged. |
| UploadForm.ChooseType | valokuvauscv/src/components/UploadForm.js:324-330 | The corrected select sets the flag and marks the form dirty, like every other input. |
| UploadForm.ClearMetadata | valokuvauscv/src/components/UploadForm.js:129-141 | The six fields become empty. Image, type, category, preview and the "extracted" flag stay, and the form is dirty. |
| UploadForm.ClearAll | valokuvauscv/src/components/UploadForm.js:143-161 | Everything returns to the fresh form: empty values, no preview, no error, not dirty. |
| UploadForm.FailureMessage | valokuvauscv/src/components/UploadForm.js:195 | A failure shows its own message, or "Upload failed" when it has none, so the message is never empty. |
| UploadForm.Submit | valokuvauscv/src/components/UploadForm.js:163-199 | Without an image: an error and no upload. Otherwise the form's values are sent. Success resets to the initial state and closes; failure keeps every value and shows the message. |
| UploadForm.Step | valokuvauscv/src/components/UploadForm.js:90-199 | One user action, with the type select corrected (UploadForm.ChooseType): every input marks the form dirty, a pick without a file changes nothing, clearing gives the fresh form, and a dirty form becomes clean only by returning to the fresh form. |
| UploadForm.StepKeepsPristine | valokuvauscv/src/components/UploadForm.js:90-199 | With the type select corrected (UploadForm.ChooseType), every handler keeps "clean means holds nothing". |
| UploadForm.RunKeepsPristine | valokuvauscv/src/components/UploadForm.js:90-199 | With the type select corrected (UploadForm.ChooseType), whatever the user does, a form reporting itself clean holds nothing the user entered. The select as written breaks this (UploadForm.TypeChoiceNotTracked). |
| UploadForm.TypeChoiceNotTracked | valokuvauscv/src/components/UploadForm.js:324-330 | With the select as written, choosing black and white on a fresh form changes it but leaves it reported clean. |
| UploadForm.SuccessEqualsClear | valokuvauscv/src/components/UploadForm.js:143-190 | A successful submit leaves the same state as the clear button. |
| UploadForm.FailureKeepsInput | valokuvauscv/src/components/UploadForm.js:194-195 | A failed upload loses none of the input and shows a non-empty error. |
| BulkUpload.EntryFor | valokuvauscv/src/components/BulkUploadForm.js:93-106 | An entry keeps the file, preview and metadata read. Its "has metadata" flag is set iff something was read, and it starts with no category and colour type. |
| BulkUpload.PickFiles | valokuvauscv/src/components/BulkUploadForm.js:85-112 | An empty choice changes nothing. Otherwise the list becomes one entry per file, in order, and the form is dirty. |
| BulkUpload.SetMass | valokuvauscv/src/components/BulkUploadForm.js:114-120 | Only the named mass setting changes, and the files stay. |
| BulkUpload.ApplySetting | valokuvauscv/src/components/BulkUploadForm.js:124 | Only the named per-file field changes. |
| BulkUpload.SetIndividual | valokuvauscv/src/components/BulkUploadForm.js:122-127 | Only the entry at the index takes the setting. The length and every other entry are unchanged. |
| BulkUpload.ApplyMassToAll | valokuvauscv/src/components/BulkUploadForm.js:129-136 | Every entry takes the mass category and type, and all its other fields and the length are unchanged. |
| BulkUpload.WithoutIndex | valokuvauscv/src/components/BulkUploadForm.js:139 | The list is the one before the index followed by the one after it; an index outside the list changes nothing. |
| BulkUpload.RemoveFile | valokuvauscv/src/components/BulkUploadForm.js:138-142 | Exactly one entry goes, and the form is dirty iff entries remain. |
| BulkUpload.ClearAllFiles | valokuvauscv/src/components/BulkUploadForm.js:144-155 | No entries, no error and not dirty; the mass settings stay. |
| BulkUpload.BoolText | valokuvauscv/src/components/BulkUploadForm.js:180 | A boolean travels as "true" or "false". |
| BulkUpload.BoolTextRoundTrip | valokuvauscv/src/components/BulkUploadForm.js:329-330 | Reading the text back the way the selects do gives the boolean. |
| BulkUpload.RequestFor | valokuvauscv/src/components/BulkUploadForm.js:170-181 | The request carries the entry's file and settings, and its metadata, or six empty fields when none was read. |
| BulkUpload.Submit | valokuvauscv/src/components/BulkUploadForm.js:157-204 | No entries gives an error and no upload. Otherwise uploads go in list order, one per entry. All succeeding resets and closes. A failure at k stops after k+1 requests and keeps the list with the message. |
| BulkUpload.ApplyMassIdempotent | valokuvauscv/src/components/BulkUploadForm.js:129-136 | Applying the mass settings twice is applying them once. |
| BulkUpload.RemoveKeepsOrder | valokuvauscv/src/components/BulkUploadForm.js:138-142 | Entries before the index stay in place, and those after it shift down by one. |
| BulkUpload.Step | valokuvauscv/src/components/BulkUploadForm.js:85-204 | One user action: choosing files marks the form dirty with one entry per file, clearing empties it, and a dirty form becomes clean only with no files left. |
| BulkUpload.StepKeepsEmpty | valokuvauscv/src/components/BulkUploadForm.js:85-204 | Every handler keeps "clean means no files". |
| BulkUpload.RunKeepsEmpty | valokuvauscv/src/components/BulkUploadForm.js:85-204 | Whatever the user does, a form reporting itself clean holds no chosen files. |
| CloseConfirm.Close | valokuvauscv/src/components/UploadModal.js:9-15 | A closed modal has both flags reset. |
| CloseConfirm.HandleClose | valokuvauscv/src/components/UploadModal.js:19-25 | With unsaved changes the confirmation shows and the modal stays open; otherwise it closes. |
| CloseConfirm.Step | valokuvauscv/src/components/BulkUploadModal.js:9-40 | An event that cannot happen changes nothing. An open modal closes only by "Close Anyway", by the form finishing, or by the close button or backdrop when nothing is unsaved. A closed modal is reset. |
| CloseConfirm.NoSilentDiscard | valokuvauscv/src/components/UploadModal.js:19-40 | A modal holding unsaved input closes only through the confirmation or the form's own success. |
| CloseConfirm.CancelUndoesRequest | valokuvauscv/src/components/UploadModal.js:19-34 | Asking to close and then cancelling leaves the modal exactly as it was. |
| CloseConfirm.RunKeepsClosedReset | valokuvauscv/src/components/BulkUploadModal.js:9-34 | Over any events, a closed modal carries no stale flags, and the confirmation shows only while the modal is open. |
| CloseConfirm.DirectCloseLosesNothing | valokuvauscv/src/components/UploadModal.js:57-62 | When the modal mirrors the form's dirty flag and the form satisfies the hypothesis `CleanMeansPristine` (clean means it holds nothing), a close that needs no confirmation happens only while the form holds nothing. Only the form with the type select corrected (UploadForm.ChooseType) keeps that hypothesis, by UploadForm.RunKeepsPristine. |
| Server.StripTrailingSlashes | backend/server.js:109 | Drops exactly the trailing separators. |
| Server.LastIndexOf | backend/server.js:109 | The last position holding the character, or -1. |
| Server.Basename | backend/server.js:109 | The last segment: no separator, and it ends the path without its trailing separators. |
| Server.Extname | backend/server.js:120 | `path.extname` is empty or a dot plus dot-free, separator-free text, and it ends the path. |
| Server.ExtnameOfSegment | backend/server.js:120 | For a path without separators, the extension runs from its last dot. It is empty when there is no dot, when the dot leads, or for "..". |
| Server.ExtnameOfSuffixed | backend/server.js:109 | Appending an extension to a dot-free name gives exactly that extension back. |
| Server.StoredFilename | backend/server.js:107-110 | The stored name has the same extension as the original name. |
| Server.StoredFilenameStartsWithTime | backend/server.js:108-109 | The stored name starts with the upload time and a dash. |
| Server.FileFilter | backend/server.js:118-128 | Acceptance implies an allowed mimetype and an extension of at least four characters. A refusal carries "Only image files are allowed!". |
| Server.AcceptedNameHasExtension | backend/server.js:119-120 | An extension matching the pattern is at least four characters long: a dot and a type name. |
| Server.ImageNameAccepted | backend/server.js:118-124 | A plain name ending in ".jpeg", ".jpg", ".png", ".gif" or ".webp", sent with a matching mimetype, is accepted. |
| Server.StoredNameKeepsVerdict | backend/server.js:107-128 | The stored name gets the same verdict as the original. |
| Server.ExtensionCaseIgnored | backend/server.js:120 | The extension test ignores case. |
| Server.CapitalMimetypeRefused | backend/server.js:121-126 | The mimetype test is case-sensitive: a mimetype with no lower-case letters is refused. |
| Server.BearerToken | backend/server.js:133-134 | The token is the second space-separated field of the header: present, non-empty and space-free. |
| Server.BearerRoundTrip | backend/server.js:133-134 | `scheme + " " + token` yields the token. |
| Server.NoSpaceNoToken | backend/server.js:133-138 | A missing header, or one without a space, yields no token. |
| Server.Authenticate | backend/server.js:132-147 | Without a token, 401; with a token that does not verify, 403; the request goes on iff the token verifies. |
| Server.LoginGuard | backend/server.js:155-157 | 400 iff the username or password is missing or empty. |
| Server.CategoryName | backend/server.js:212-226 | 400 iff the name is missing or all whitespace. Otherwise the stored and returned name is the trimmed one, non-empty and not whitespace-bounded. |
| Server.CategoryNameStable | backend/server.js:212-216 | Submitting an accepted name again gives the same name. |
| Server.Affinity | backend/server.js:277 | Unsigned decimal text is stored as its integer, and anything else as the same text. |
| Server.CountUsing | backend/server.js:236 | The count is positive iff some photo references the category. |
| Server.WithoutCategory | backend/server.js:245 | Exactly the rows with that id are removed. |
| Server.DeleteCategory | backend/server.js:236-245 | 400 iff a photo uses the category, and then nothing is deleted; otherwise exactly that category is gone. |
| Server.DeleteTwiceIsOnce | backend/server.js:236-245 | Deleting an unused category twice equals deleting it once. |
| Server.Upload | backend/server.js:256-277 | 400 iff no file. Otherwise the row keeps the file names and fields, a falsy type flag is stored as 0, and a falsy category as NULL. |
| Server.UploadedCategorySelectable | backend/server.js:277 | A category id sent as text is stored as that number, so the admin category filter for the id selects the photo. |
| Server.UploadedTypeMatchesNoFilter | backend/server.js:277 | The type flag the forms send ("true"/"false") is stored as text, so the photo matches neither admin type setting. |
| Server.StoredFlagCorrected | backend/server.js:277 | The corrected flag: the texts "true" and "false" are stored as 1 and 0; any other value is stored as the route stores it now. |
| Server.CorrectedTypeSelectable | backend/server.js:277 | With the corrected flag, a photo uploaded through either form passes the "black_white" type filter iff black and white was chosen, and the other setting iff it was not. |
| Server.FindPhoto | backend/server.js:304 | The lookup finds a row with the id exactly when one exists. |
| Server.WithoutPhoto | backend/server.js:320 | Exactly the rows with that id are removed. |
| Server.DeletePhoto | backend/server.js:301-326 | 404 iff no row has the id. Otherwise the file of a row with that id is unlinked and every row with the id is gone. |
| Server.DeletePhotoTwiceNotFound | backend/server.js:301-326 | Deleting the same photo again answers 404. |
| Server.UpdateRows | backend/server.js:343-346 | Rows with the id take the new values; every other row is unchanged. |
| Server.UpdatePhoto | backend/server.js:330-358 | 404 iff no row has the id. Otherwise rows with the id keep their id and file names and take the sent metadata; every other row is unchanged. |
| Server.UpdateAgreesWithUpload | backend/server.js:343-346 | An updated row holds exactly what the upload route would store for the same body and file, `is_black_white \|\| 0` and `category_id \|\| null` included. |
| Server.UpdatePhotoIdempotent | backend/server.js:330-358 | Sending the same update twice is sending it once. |
| Text.Lower | valokuvauscv/src/components/AdminPanel.js:102 | Lower-casing keeps the length and maps each character, leaving no capital letter. |
| Text.LowerIdempotent | valokuvauscv/src/components/AdminPanel.js:73-77 | Lower-casing twice is lower-casing once. |
| Text.TrimStart | backend/server.js:212 | Cuts only leading whitespace, and the rest starts with a non-whitespace character. |
| Text.TrimEnd | backend/server.js:212 | Cuts only trailing whitespace, and the rest ends with a non-whitespace character. |
| Text.Trim | backend/server.js:216 | The trimmed text is no longer than the input and starts and ends with non-whitespace. |
| Text.TrimCutsOnlyWhitespace | backend/server.js:212-216 | The trimmed text is a slice of the input with only whitespace before and after it. |
| Text.TrimEmptyIffBlank | backend/server.js:212 | Text trims to empty exactly when it is all whitespace. |
| Text.TrimIdempotent | backend/server.js:216-226 | Trimming twice is trimming once. |
| Text.IndexOf | backend/server.js:134 | The first position holding the character, or -1 when it does not occur. |
| Text.Split | backend/server.js:134 | At least one field, none containing the separator. |
| Text.JoinSplit | backend/server.js:134 | Joining the fields of a split restores the text. |
| Text.SplitJoin | valokuvauscv/src/components/BulkUploadForm.js:73 | Splitting a join of separator-free fields gives the fields back. |
| Text.Contains | valokuvauscv/src/components/AdminPanel.js:75 | `includes` finds a needle only in text at least as long as itself. |
| Text.ContainsAt | valokuvauscv/src/components/AdminPanel.js:75 | A needle occurring at some position is found. |
| Text.ContainsIffOccurs | valokuvauscv/src/components/AdminPanel.js:75 | `includes` is true exactly when the needle occurs at some position of the text. |
| Text.LexLessEq | valokuvauscv/src/components/AdminPanel.js:94-97 | String `<=`: every string is at most itself, and the empty string is at most any string. |
| Text.LexLessEqTotalOrder | valokuvauscv/src/components/AdminPanel.js:94-97 | String `<=` is reflexive, total, antisymmetric and transitive. |
| Text.DecimalString | backend/server.js:108 | The decimal rendering is non-empty and all digits. |
| Text.DecimalRoundTrip | backend/server.js:108 | Reading back the rendering of n gives n. |
| Text.IntStringToNumber | valokuvauscv/src/components/AdminPanel.js:83 | `Number(String(i))` is i. |
| Text.ToNumber | valokuvauscv/src/components/AdminPanel.js:83 | `Number(...)` on blank or integer text: blank text converts to 0; with Text.IntStringToNumber and Text.InnerMinusIsNaN its values are stated. |
| Text.InnerMinusIsNaN | valokuvauscv/src/components/AdminPanel.js:94 | Text with a minus sign after its first character and no exponent letter, such as a `YYYY-MM-DD` date, converts to NaN. |
| Text.ToNumberNaN | valokuvauscv/src/components/AdminPanel.js:94 | Within the modelled integer subset of `Number`, trimmed text that is neither digits nor a sign followed by digits has no value. |

## Left out

- Network, database and disk I/O are left out: every `fetch`, SQLite query, multer disk write and static file route. Only the decisions around them are modelled, and their results enter as parameters.
- Password hashing and JWT signing and verification are left out. `Server.Authenticate` takes the verifier as a function parameter.
- EXIF parsing is left out: `exifr`, date conversion and the rounding of exposure time and focal length. They are a foreign library and floating-point arithmetic. Their result enters the forms as an optional `Meta`; only the camera-description join is modelled.
- Real time is left out. `requestAnimationFrame`, `setTimeout`, `clearTimeout` and `performance.now` become explicit events or timestamps carried by events.
- DragScroll.DistanceSq: the drag distance is kept squared. `Math.sqrt` is not modelled, and zero-ness is the same either way.
- Floating-point pixels are not modelled. Offsets, sizes and deltas are integers; JavaScript's `Math.floor` and `Math.ceil` of a quotient are modelled exactly for integer operands.
- Text.Lower: `toLowerCase` is modelled for ASCII letters only; other letters are left unchanged.
- Strings are sequences of Unicode scalar values, whereas JavaScript's `<=` and `includes` work on UTF-16 code units. The two orders differ only between characters above U+FFFF and those in U+E000-U+FFFF. The dates and flags the filters compare are ASCII, so no property here depends on the difference.
- Text.ToNumber: `Number(...)` is modelled for blank text and trimmed decimal integers with an optional sign. Decimals, exponents and hexadecimal forms such as "3.0", "1e3" or "0x1F" are not modelled, and none of them come from the forms' controls.
- Text.ToNumberNaN: it holds of the modelled subset only; JavaScript reads "1.5" as 1.5 and "1e3" as 1000. Text.InnerMinusIsNaN and AdminFilter.LetterTextIsNaN state NaN cases that hold in JavaScript as well.
- Server.Affinity: SQLite's numeric affinity is modelled for unsigned decimal integers only. Signed, real-valued or padded text, which the forms never send, would also convert in SQLite.
- Server.FileFilter: its contract states what acceptance implies. The converse is stated separately, by Server.ImageNameAccepted, for names that end in one of the five types.
- The path module is modelled for POSIX separators only.
- The upload size limit of 10 MB (backend/server.js:115-117) is left out. File sizes are not part of the model.
- The UNIQUE constraint on category names (backend/server.js:218-219) is left out: it is a database error, not a guard.
- The GET routes for photos and categories are left out: they only read rows. Route ids (`req.params.id`) enter the photo and category routes as their numeric value.
- Database errors (the 500 answers) and the existence check before unlinking a photo's file are left out; they are I/O outcomes.
- React mechanics are left out: render batching, stale closures, the `uploading` flag that disables the submit button, preview URL revocation, and effects that only forward a value to a parent. The modal mirrors the form's dirty flag directly.
- The bulk form's `onComplete` callback and the admin panel's refresh after an upload are left out. They only re-fetch data.
- The grid's photo fetch and its sample-data fallback (InfiniteGrid.js:19-57) are left out, and so are the viewport resize listener and the transform animation frame (InfiniteGrid.js:130-160). They are I/O and DOM work; the photo list, viewport and scroll position are parameters.
- The range of `Math.random` is not constrained. `Server.StoredFilename` accepts any natural number for the random part.
- JSON request bodies are modelled with string values or missing fields. Non-string JSON values are not modelled.

## Findings

| source | as written | input that shows it | evidently intended | confidence | as-written member | corrected member |
|---|---|---|---|---|---|---|
| valokuvauscv/src/components/UploadForm.js:324-330 | The photo-type select changes the form but does not set the unsaved-changes flag, unlike every other input. | Open the single upload modal, choose "Black & White", then click the close button: the modal closes at once and the choice is lost. | The select marks the form dirty, so closing asks for confirmation. | medium, not executed | UploadForm.ChooseTypeAsWritten / UploadForm.TypeChoiceNotTracked | UploadForm.ChooseType / UploadForm.RunKeepsPristine |
| backend/server.js:277 | Both upload forms send the type flag as the text "true" or "false" (BulkUploadForm.js:180). `is_black_white \|\| 0` keeps that text, and the BOOLEAN column stores it as TEXT. | Upload a photo with "Color" chosen, then pick either setting of the admin panel's type filter: `"false" == false` is false, and so is `"false" == true`, so the photo never appears. | The flag is stored as 1 or 0, so the type filter selects the photo by its chosen type. | medium, not executed | Server.Upload / Server.UploadedTypeMatchesNoFilter | Server.StoredFlagCorrected / Server.CorrectedTypeSelectable |
