# Classroom seating plan — a verified model

This project models the in-browser logic of a classroom management application
written with Angular. A teacher sees a seating plan of tables, each possibly
occupied by a student with remarks ("bavard", "DM non fait", ...). The teacher can:

- in *table* mode, drag tables, either freely or snapped to a grid;
- in *student* mode, drag a student onto another table to exchange two seats;
- reconcile tables with the grid, and save the layout only if no two tables share a cell;
- add a student at the first free cell;
- search remarks;
- deal the class into groups round-robin;
- run a behaviour-zone countdown timer.

The model is written in Dafny and follows the components one module at a time.

| module | component |
|---|---|
| `Geometry` | `Math.round`, the clamp, centring a table in its cell, and the cell of a pixel position |
| `Text` | `toLowerCase`, `includes`, `trim`, and the decimal rendering of numbers |
| `Seating` | the shared records: students, remarks, backend cells and on-screen tables; seat swaps; the selection toggle |
| `Sequences` | `Array.prototype.filter` and the order-preserving subsequence relation |
| `Plan` | the plan component: severity classes, drag tests, and the drag controller class `PlanController` |
| `ClassroomDetail` | the classroom page: building the UI tables, `applyGrid`, `saveClassroom`, `openAddStudent`, toggles, and the remark search (class `ClassroomDetailPage`) |
| `Groupes` | the groups page (class `GroupesPage`) |
| `Zone` | the zone colour and timer (class `ZoneTimer`) |
| `Sidebar` | the student list, its search, and the add form (class `SidebarComponent`) |
| `RemarkFilter` | the stand-alone remark filter |
| `App` | the application shell (class `AppShell`) |

## How the source is represented

- **State.** Components that update fields are classes with those fields. Each method states the new state in `ensures`.
  - Each method is tied to a function on values (`DragTo`, `StudentDrop`, `Reconcile`, `Members`, `Filtered`, ...).
  - The properties are proved as lemmas about those functions.
- **Object identity.** A table object's identity (`t === current`, `draggedTable`) becomes its index in the list that holds it.
  - A dragged index that is not in the list leaves the list unchanged.
  - Writes through `backendRef` become writes to `tables[i]` of the page. `buildUITables` makes UI table `i` refer to backend table `i`.
- **Pixels and rounding.** Pixels are exact `real`s. `Math.round(v)` is `Floor(v + 0.5)`.
- **Events and alerts.**
  - An `EventEmitter.emit` is a method result: `None` means nothing is emitted, and `Some(None)` means `emit(null)`.
  - An `alert` is an error outcome.
  - A POST body is the outcome the method returns.
- **Environment.** The DOM, the clock, randomness, HTTP and `localStorage` become parameters. Each is listed below.
  - The container rectangle and the drop-target table index are parameters.
  - The shuffled class is an input permutation.
  - A timer tick is an explicit method.
  - A saved value is an `Option<string>`.

## Model

| member | source | states |
|---|---|---|
| Geometry.Round | src/app/plan.component.ts:161-162 | `Math.round` gives the integer `r` with `r <= v + 1/2 < r + 1` |
| Geometry.RoundUnique | src/app/plan.component.ts:161-162 | that integer is the only one in the interval |
| Geometry.Clamp | src/app/plan.component.ts:164-165 | the clamp lies in `[lo, hi]`, is the identity inside it and gives the nearer bound outside |
| Geometry.ClampReal | src/app/plan.component.ts:181-182 | the pixel clamp lies in `[lo, hi]` when that range is non-empty, and is the identity inside it; with `hi < lo` it gives `lo`, since `Math.max` is applied last |
| Geometry.Centred | src/app/plan.component.ts:171-172 | a snapped table's centre is the centre of its cell |
| Geometry.CellIndex | src/app/pages/classroom-detail-page.component.ts:288-292 | the cell derived from a pixel position is inside the grid |
| Geometry.SnapRecoversIndex | src/app/plan.component.ts:161-172 | rounding a snapped position recovers its cell when `0 < tableSize <= cellSize` |
| Geometry.SnapNeedsPositiveSize | src/app/plan.component.ts:171-172 | with table size 0 the snapped position rounds to the next cell, so the recovery needs a positive size |
| Geometry.ResnapIdempotent | src/app/plan.component.ts:161-172 | snapping a snapped position again changes nothing |
| Geometry.OverlapsSymmetric | src/app/plan.component.ts:228-237 | the overlap test is symmetric in the two tables |
| Geometry.OverlapsIffClose | src/app/plan.component.ts:231-236 | two squares overlap exactly when they are closer than the size on both axes |
| Text.LowerChar | src/app/remark-filter.component.ts:26 | an upper-case ASCII letter becomes its lower-case letter; any other character is kept |
| Text.ToLower | src/app/remark-filter.component.ts:21 | lower-casing keeps the length and maps each character |
| Text.ToLowerIdempotent | src/app/remark-filter.component.ts:21 | lower-casing twice is lower-casing once |
| Text.ToLowerConcat | src/app/sidebar.component.ts:48-49 | lower-casing distributes over concatenation |
| Text.Contains | src/app/remark-filter.component.ts:26 | `includes` holds of the empty string and of the string itself, and never of a longer string |
| Text.TrimStart | src/app/sidebar.component.ts:63 | the result is a suffix; everything cut is white space; it does not start with white space |
| Text.TrimEnd | src/app/sidebar.component.ts:63 | the result is a prefix; everything cut is white space; it does not end with white space |
| Text.Trim | src/app/sidebar.component.ts:60-64 | `trim` gives a slice of the string that neither starts nor ends with white space |
| Text.BlankIffAllSpace | src/app/remark-filter.component.ts:19 | `!s.trim()` holds exactly when every character is white space |
| Text.TrimIdempotent | src/app/sidebar.component.ts:63-64 | trimming a trimmed name changes nothing |
| Text.DigitChar | src/app/pages/groupes-page.component.ts:75 | a digit value renders as the character with that offset from `'0'` |
| Text.NatToString | src/app/pages/groupes-page.component.ts:75 | a number renders as at least one decimal digit, with no leading zero, and as one digit exactly below 10 |
| Text.NatToStringRoundTrip | src/app/pages/groupes-page.component.ts:75 | reading the digits back gives the number |
| Text.NatToStringInjective | src/app/pages/groupes-page.component.ts:75 | distinct numbers render differently |
| Seating.IdOf | src/app/pages/classroom-detail-page.component.ts:327 | `s?.id` is defined exactly for a student, and is its id |
| Seating.Occupants | src/app/app.ts:44 | `tables.map(t => t.eleve)` keeps length and order |
| Seating.FindOccupant | src/app/plan.component.ts:203 | `find` returns the first table whose occupant has the id, or reports that none has it |
| Seating.SwapOccupants | src/app/plan.component.ts:205-207 | the temp swap exchanges the two occupants and changes nothing else |
| Seating.SwapSelfInverse | src/app/plan.component.ts:205-207 | swapping back restores the seating |
| Seating.SwapPreservesOccupants | src/app/plan.component.ts:205-207 | a swap is a permutation of the occupants |
| Seating.SwapPreservesUnique | src/app/plan.component.ts:205-207 | a swap keeps every student at one table at most |
| Seating.ToggleSelection | src/app/pages/classroom-detail-page.component.ts:327-331 | selecting the selected id clears the selection; any other student is selected |
| Seating.ToggleTwice | src/app/app.ts:54-60 | selecting the same student twice undoes the first selection, or reselects after a clear |
| Sequences.SubseqMembers | src/app/remark-filter.component.ts:38 | a subsequence holds only elements of the original list |
| Sequences.SubseqDropLast | src/app/remark-filter.component.ts:38 | dropping the last element of a subsequence keeps it a subsequence |
| Sequences.SubseqExtend | src/app/remark-filter.component.ts:38 | extending the original list keeps a subsequence |
| Sequences.SubseqAppendBoth | src/app/remark-filter.component.ts:38 | appending one element to both lists keeps a subsequence |
| Sequences.SubseqDistinct | src/app/remark-filter.component.ts:38 | a subsequence of a list without repetitions has none either |
| Sequences.Filter | src/app/sidebar.component.ts:47-51 | `filter` keeps the order, keeps only passing elements, and keeps every passing element |
| Sequences.FilterCounts | src/app/sidebar.component.ts:47-51 | `filter` keeps each passing element exactly as often as it occurs, and drops every other |
| Plan.CountWhere | src/app/plan.component.ts:70-72 | `filter(p).length` is at most the length, 0 exactly when none passes, and the full length exactly when all pass |
| Plan.CountWhereAppend | src/app/plan.component.ts:84-87 | one more remark adds one to the count exactly when it passes |
| Plan.BavardCount | src/app/plan.component.ts:68-72 | the "bavard" count of a table is at most its occupant's number of remarks, and 0 exactly for an empty table or an occupant without such a remark |
| Plan.DMCount | src/app/plan.component.ts:81-88 | the "dm ... non fait" count is at most the number of remarks, and 0 exactly for an empty table or an occupant without such a remark |
| Plan.TableColorClass | src/app/plan.component.ts:67-79 | a table gets no colour class exactly when it is empty or its occupant has no "bavard" remark |
| Plan.DMBarClass | src/app/plan.component.ts:90-98 | a table gets no homework bar class exactly when it is empty or its occupant has no "dm ... non fait" remark |
| Plan.Level | src/app/plan.component.ts:74-78 | the severity level is the count capped at 3: the count itself up to 3, and 3 from there on |
| Plan.TableClassFollowsLevel | src/app/plan.component.ts:67-79 | `getTableColorClass` is the yellow/orange/red class of the capped bavardage count (empty for 0 or an empty table) |
| Plan.DMClassFollowsLevel | src/app/plan.component.ts:81-98 | `getDMBarClass` is the yellow/orange/red class of the capped missing-homework count (empty for 0) |
| Plan.ColourClassIsExact | src/app/plan.component.ts:67-98 | two tables get the same class exactly when their counts have the same level |
| Plan.LevelClassInjective | src/app/plan.component.ts:74-76 | different levels give different classes |
| Plan.IsGridOccupied | src/app/plan.component.ts:219-226 | a cell is occupied exactly when some other table's position rounds to it |
| Plan.IsOverlapping | src/app/plan.component.ts:228-237 | a candidate overlaps exactly when some other table is closer than the table size on both axes |
| Plan.GridMove | src/app/plan.component.ts:156-175 | a grid move touches only the dragged table's position |
| Plan.GridMoveOutcome | src/app/plan.component.ts:156-175 | with the mouse cell clamped into the grid: an occupied cell leaves every table in place; a free cell moves the dragged table to the centred position of that cell, which is in bounds and which no other table rounds to |
| Plan.GridMovePreservesDistinct | src/app/plan.component.ts:156-175 | tables on pairwise distinct cells stay so |
| Plan.FreeMoveAsWritten | src/app/plan.component.ts:177-185 | the source's free move (test the unclamped candidate, then clamp and commit) touches only the dragged table's position |
| Plan.FreeMoveAsWrittenOutcome | src/app/plan.component.ts:177-185 | an overlapping candidate leaves every table in place; otherwise the dragged table goes to the clamped candidate, which lies in the container when the table fits, while only the unclamped candidate is known to overlap no other table |
| Plan.FreeMoveAsWrittenCanOverlap | src/app/plan.component.ts:179-185 | the source's free move can commit an overlapping position (see Findings) |
| Plan.FreeMove | src/app/plan.component.ts:177-185 | the corrected free move of Findings (clamp, then test) touches only the dragged table's position; the controller does not use it |
| Plan.FreeMoveOutcome | src/app/plan.component.ts:177-185 | for the corrected move: an overlapping clamped position leaves every table in place; otherwise the dragged table goes to that position, inside the container and free of other tables |
| Plan.FreeMovePreservesNoOverlap | src/app/plan.component.ts:177-185 | the corrected move keeps an overlap-free plan overlap-free |
| Plan.DragTo | src/app/plan.component.ts:145-186 | without a dragged table or outside table mode nothing moves; otherwise the grid move or the source's free move applies, only the dragged table moves and no occupant changes |
| Plan.StudentDrop | src/app/plan.component.ts:193-211 | a drop never moves a table's pixel position |
| Plan.StudentDropExchanges | src/app/plan.component.ts:198-209 | a drop brings the dragged student to the target, exchanges exactly two occupants, and permutes the occupants |
| Plan.StudentDropWithoutDrag | src/app/plan.component.ts:193 | without a visible avatar, a dragged student or a target, a drop changes nothing |
| Plan.DragBackRestores | src/app/plan.component.ts:198-209 | dragging a student to a table and back restores the plan |
| Plan.PlanController.SetGrid | src/app/plan.component.ts:62-65 | `setGrid` sets columns and rows |
| Plan.PlanController.OnMouseDown | src/app/plan.component.ts:100-108 | a table drag is armed by button 0 in table mode only; otherwise nothing changes |
| Plan.PlanController.StartStudentDrag | src/app/plan.component.ts:110-122 | a student drag is armed by button 0 in student mode, with the avatar hidden at the down-position; otherwise nothing changes |
| Plan.PlanController.OnMouseMove | src/app/plan.component.ts:124-189 | during a student drag the avatar turns visible past the threshold, stays visible and follows the mouse, while no table moves; otherwise the tables move as `DragTo` says |
| Plan.PlanController.MoveAvatar | src/app/plan.component.ts:126-142 | the avatar becomes visible once the mouse is past the threshold, stays visible, and follows the mouse exactly while visible |
| Plan.PlanController.MoveTable | src/app/plan.component.ts:145-188 | the tables become `DragTo` of the old tables for this mouse and container: the free branch tests the unclamped candidate, then clamps it |
| Plan.PlanController.OnMouseUp | src/app/plan.component.ts:191-217 | the tables become `StudentDrop` of the old state, and every drag ends |
| Plan.PlanController.OnTableClick | src/app/plan.component.ts:240-245 | an occupant is reported exactly for an occupied table in student mode |
| ClassroomDetail.Min | src/app/pages/classroom-detail-page.component.ts:255 | `Math.min` is the smaller of the two |
| ClassroomDetail.ClampCell | src/app/pages/classroom-detail-page.component.ts:258-259 | a clamped cell is in the grid, an in-grid cell is kept, a negative coordinate goes to 0, and one beyond the grid goes to the last column or row |
| ClassroomDetail.Reconcile | src/app/pages/classroom-detail-page.component.ts:252-266 | reconciling keeps the number of tables |
| ClassroomDetail.ReconcileSpec | src/app/pages/classroom-detail-page.component.ts:252-266 | after `applyGrid` the table size is the smaller cell side minus 10, every cell is in bounds, in-bounds cells are kept, every table is centred in its cell, and occupants do not move |
| ClassroomDetail.ReconcileIdempotent | src/app/pages/classroom-detail-page.component.ts:252-266 | applying the grid twice is applying it once |
| ClassroomDetail.ShrinkingColumnsClamps | src/app/pages/classroom-detail-page.component.ts:258-262 | going from 10 to 3 columns moves a table of column 7 to column 2 |
| ClassroomDetail.RecoveredCell | src/app/pages/classroom-detail-page.component.ts:288-292 | the cell derived from a table's pixels is in the grid |
| ClassroomDetail.SaveKeys | src/app/pages/classroom-detail-page.component.ts:287-294 | one in-grid key per table |
| ClassroomDetail.FirstRepeat | src/app/pages/classroom-detail-page.component.ts:285-302 | a repeated key is found exactly when the keys are not pairwise distinct, and the one found is the first repetition |
| ClassroomDetail.DistinctPrefixHasNoRepeat | src/app/pages/classroom-detail-page.component.ts:296 | no key of a repetition-free prefix repeats an earlier one |
| ClassroomDetail.RepeatSpoilsLongerPrefix | src/app/pages/classroom-detail-page.component.ts:296 | a repetition stays in every longer prefix |
| ClassroomDetail.FirstRepeatAt | src/app/pages/classroom-detail-page.component.ts:296-299 | the loop stops at the first repeated key |
| ClassroomDetail.SavedCells | src/app/pages/classroom-detail-page.component.ts:285-306 | after the save loop, a table before the first repeated key holds its key and every other keeps its old cell; with no repetition every table holds its key |
| ClassroomDetail.WriteBack | src/app/pages/classroom-detail-page.component.ts:285-306 | the loop stops at the first repeated key, exactly as `FirstRepeat` finds it, and leaves the cells `SavedCells` describes |
| ClassroomDetail.ReconcileLoop | src/app/pages/classroom-detail-page.component.ts:252-263 | the `forEach` of `applyGrid` computes the layout `Reconcile` describes |
| ClassroomDetail.SaveAfterReconcile | src/app/pages/classroom-detail-page.component.ts:252-306 | saving right after `applyGrid`, with cells larger than 10 pixels, writes back exactly the reconciled cells |
| ClassroomDetail.FirstFreeCell | src/app/pages/classroom-detail-page.component.ts:383-395 | the cell found is in the grid and free, and every cell before it in row-major order is taken; with no cell found, every cell is taken |
| ClassroomDetail.ClassroomDetailPage.OnClassroomLoaded | src/app/pages/classroom-detail-page.component.ts:151-154 | a loaded classroom has its UI tables built |
| ClassroomDetail.ClassroomDetailPage.BuildUITables | src/app/pages/classroom-detail-page.component.ts:223-240 | UI table `i` starts at backend position `i`, holding student `i` or nobody |
| ClassroomDetail.ClassroomDetailPage.ApplyGrid | src/app/pages/classroom-detail-page.component.ts:242-266 | without UI tables or with an empty plan nothing changes; otherwise the layout becomes its `Reconcile` |
| ClassroomDetail.ClassroomDetailPage.WriteBackCells | src/app/pages/classroom-detail-page.component.ts:285-306 | the page's cells become `SavedCells` of its UI tables' keys and its old cells, and the index of the first repeated key is returned |
| ClassroomDetail.ClassroomDetailPage.SaveClassroom | src/app/pages/classroom-detail-page.component.ts:274-311 | it posts exactly when the tables' cells are pairwise distinct, having written them back; on the first repeated cell it alerts, keeps the cells written so far, and applies the grid |
| ClassroomDetail.ClassroomDetailPage.OpenAddStudent | src/app/pages/classroom-detail-page.component.ts:360-412 | it refuses without a classroom, with a blank name, or with an existing name up to case; otherwise it proposes the first free cell, the trimmed names and index `tables.length`, or reports a full grid |
| ClassroomDetail.ClassroomDetailPage.ToggleLock | src/app/pages/classroom-detail-page.component.ts:313-322 | the mode flips, the sidebar list closes and the selection clears; the sidebar's search term and add form are unchanged |
| ClassroomDetail.ClassroomDetailPage.SelectStudent | src/app/pages/classroom-detail-page.component.ts:324-332 | outside student mode nothing happens; otherwise the selection toggles |
| ClassroomDetail.ClassroomDetailPage.FilteredResults | src/app/pages/classroom-detail-page.component.ts:102-123 | the page's remark search equals the remark filter's `Filtered` (empty without a classroom) |
| RemarkFilter.MatchingRemarks | src/app/remark-filter.component.ts:25-27 | the matched remarks are, in order, exactly those that mention the search |
| RemarkFilter.MatchingRemarksCounts | src/app/remark-filter.component.ts:25-27 | each mentioning remark is kept exactly as often as it occurs, and no other remark |
| RemarkFilter.StudentsOf | src/app/remark-filter.component.ts:30-33 | the students of the results, in order |
| RemarkFilter.FilteredBlank | src/app/remark-filter.component.ts:19 | a blank filter gives no result |
| RemarkFilter.MatchStudents | src/app/remark-filter.component.ts:23-38 | there is at most one result per student |
| RemarkFilter.Filtered | src/app/remark-filter.component.ts:18-39 | there are never more results than students; its full meaning is `FilteredSpec` |
| RemarkFilter.MatchStudentsSound | src/app/remark-filter.component.ts:23-38 | every result is an input student with the non-empty list of its mentioning remarks |
| RemarkFilter.MatchStudentsOrderAndComplete | src/app/remark-filter.component.ts:23-38 | results follow the input order, and no student with a mentioning remark is omitted |
| RemarkFilter.MatchStudentsOrder | src/app/remark-filter.component.ts:23-38 | the students of the results are a subsequence of the input |
| RemarkFilter.MatchStudentsKeeps | src/app/remark-filter.component.ts:23-38 | a given student with a mentioning remark is among the results |
| RemarkFilter.MatchStudentsComplete | src/app/remark-filter.component.ts:23-38 | no student with a mentioning remark is omitted |
| RemarkFilter.FilteredSpec | src/app/remark-filter.component.ts:18-39 | the whole getter: blank gives nothing; otherwise sound, ordered, repetition-free for a repetition-free class, and complete |
| Sidebar.LexTotal | src/app/sidebar.component.ts:41-43 | the name order is total |
| Sidebar.LexTrans | src/app/sidebar.component.ts:41-43 | the name order is transitive |
| Sidebar.InsertByNom | src/app/sidebar.component.ts:41-43 | insertion adds exactly one element |
| Sidebar.SortByNom | src/app/sidebar.component.ts:41-43 | the sort is a permutation |
| Sidebar.InsertByNomSorted | src/app/sidebar.component.ts:41-43 | inserting into a sorted list keeps it sorted |
| Sidebar.SortByNomCorrect | src/app/sidebar.component.ts:41-43 | the sort is sorted by family name and a permutation |
| Sidebar.PresentOccupants | src/app/sidebar.component.ts:38-40 | the listed students are the occupants of the occupied tables, in table order and each as often as seated |
| Sidebar.PresentOccupantsMembers | src/app/sidebar.component.ts:38-40 | a student is listed exactly when some table holds it |
| Sidebar.SidebarComponent.ToggleStudents | src/app/sidebar.component.ts:27-35 | disabled: nothing happens; otherwise the list flips, and closing it emits `null` |
| Sidebar.SidebarComponent.GetStudents | src/app/sidebar.component.ts:37-44 | the seated students, each as often as seated, sorted by family name |
| Sidebar.SidebarComponent.FilteredStudents | src/app/sidebar.component.ts:46-52 | the students whose "prenom nom" contains the search term, in list order, each as often as listed, none omitted |
| Sidebar.SidebarComponent.SelectStudent | src/app/sidebar.component.ts:54-57 | the student is emitted exactly when the sidebar is enabled |
| Sidebar.SidebarComponent.SubmitNewStudent | src/app/sidebar.component.ts:59-70 | blank names change nothing; otherwise the trimmed, non-empty names are emitted and the form is cleared and hidden |
| Groupes.GroupName | src/app/pages/groupes-page.component.ts:75 | group `i` is named `"Groupe "` followed by `i + 1` |
| Groupes.GroupNamesDistinct | src/app/pages/groupes-page.component.ts:73-79 | different groups get different names |
| Groupes.DivModUnique | src/app/pages/groupes-page.component.ts:89 | arithmetic helper of `MembersSize` and `MembersAt`: quotient and remainder are unique |
| Groupes.DivModNext | src/app/pages/groupes-page.component.ts:89 | arithmetic helper of `MembersSize` and `MembersAt`: how `index % n` and `index / n` step from one index to the next |
| Groupes.MulAtLeast | src/app/pages/groupes-page.component.ts:89 | arithmetic helper of `DivModUnique`: a positive multiple of `n` is at least `n` |
| Groupes.Members | src/app/pages/groupes-page.component.ts:88-91 | group `g` receives no more students than the class has, and only students of the class; `MembersSize` and `MembersAt` give its exact contents |
| Groupes.MembersSize | src/app/pages/groupes-page.component.ts:88-91 | group `g` receives `|s| / n` students, plus one when `g < |s| % n` |
| Groupes.GroupSizesBalanced | src/app/pages/groupes-page.component.ts:88-91 | group sizes differ by at most one |
| Groupes.MembersAt | src/app/pages/groupes-page.component.ts:88-91 | the `j`-th member of group `g` is the student at position `g + j * n` |
| Groupes.PlacedInItsGroup | src/app/pages/groupes-page.component.ts:88-91 | the student at position `i` is in group `i % n` |
| Groupes.Deal | src/app/pages/groupes-page.component.ts:88-91 | there is one list per group |
| Groupes.ConcatAllEmpty | src/app/pages/groupes-page.component.ts:86 | emptied groups hold nobody |
| Groupes.ConcatPush | src/app/pages/groupes-page.component.ts:90 | a push adds exactly one student to the groups together |
| Groupes.DealStep | src/app/pages/groupes-page.component.ts:88-91 | one more student is pushed onto group `index % n` |
| Groupes.DealIsPermutation | src/app/pages/groupes-page.component.ts:82-92 | every student is assigned exactly once |
| Groupes.Ids | src/app/pages/groupes-page.component.ts:95 | `eleves.map(e => e.id)` keeps length and order |
| Groupes.FlatIds | src/app/pages/groupes-page.component.ts:94-96 | every id of the `flatMap` is held by some group; `FlatIdsSpec` gives the converse |
| Groupes.FlatIdsSpec | src/app/pages/groupes-page.component.ts:94-96 | an id is in the `flatMap` exactly when some group holds a student with it |
| Groupes.Available | src/app/pages/groupes-page.component.ts:98-101 | the available students are, in class order, exactly those whose id no group holds, each as often as in the class |
| Groupes.NoneAvailableAfterDeal | src/app/pages/groupes-page.component.ts:82-101 | after the deal into at least one group no student of the class is available |
| Groupes.FindById | src/app/pages/groupes-page.component.ts:104 | `find` gives the first student with the id, or reports that none has it |
| Groupes.Removed | src/app/pages/groupes-page.component.ts:112 | the filter removes every entry with the id and keeps the others in order, each as often as before |
| Groupes.RemovedAbsent | src/app/pages/groupes-page.component.ts:112 | removing an absent id changes nothing |
| Groupes.RemoveUndoesAdd | src/app/pages/groupes-page.component.ts:103-113 | removing a student just added restores the group |
| Groupes.AddKeepsIdsDistinct | src/app/pages/groupes-page.component.ts:106-108 | the duplicate test keeps a group's ids distinct |
| Groupes.GroupesPage.CreateGroupes | src/app/pages/groupes-page.component.ts:70-80 | exactly `nombreGroupes` empty, expanded groups named in order |
| Groupes.GroupesPage.RepartitionAleatoire | src/app/pages/groupes-page.component.ts:82-92 | without groups nothing changes; otherwise group `g` holds `Members(shuffled, n, g)` and keeps its other fields |
| Groupes.GroupesPage.GetAssignedStudentIds | src/app/pages/groupes-page.component.ts:94-96 | the ids held by some group |
| Groupes.GroupesPage.GetAvailableStudents | src/app/pages/groupes-page.component.ts:98-101 | the students no group holds, in class order, each as often as in the class |
| Groupes.GroupesPage.AjouterEleve | src/app/pages/groupes-page.component.ts:103-109 | an unknown id or a student already in the group changes nothing; otherwise the first student with the id is appended, and distinct ids stay distinct |
| Groupes.GroupesPage.RetirerEleve | src/app/pages/groupes-page.component.ts:111-113 | only the group's list changes, to `Removed` of the old list |
| Groupes.GroupesPage.ToggleExpand | src/app/pages/groupes-page.component.ts:115-117 | only the group's `expanded` flag flips |
| Zone.ZoneName | src/app/pages/zone/zone.component.ts:38-41 | a zone is stored as one of the three names |
| Zone.ParseZone | src/app/pages/zone/zone.component.ts:32-35 | a saved value is accepted exactly when it is `'red'`, `'orange'` or `'green'` |
| Zone.ZoneRoundTrip | src/app/pages/zone/zone.component.ts:32-41 | storing a zone and reading it back gives the zone, and an accepted string is that zone's name |
| Zone.JsRem | src/app/pages/zone/zone.component.ts:81 | JavaScript's `%` lies in `[0, 60)` for a non-negative count and in `(-60, 0]` for a negative one |
| Zone.Pad | src/app/pages/zone/zone.component.ts:85-87 | `pad` gives at least two characters, all digits for a non-negative value; a negative value renders as `"0-"` followed by its digits |
| Zone.PadTwoDigits | src/app/pages/zone/zone.component.ts:85-87 | `pad` gives two digits for 0 to 99, reading back as the value |
| Zone.FormatParts | src/app/pages/zone/zone.component.ts:79-82 | for a non-negative count, `minutes * 60 + seconds` is the count and `seconds < 60` |
| Zone.FormatTime | src/app/pages/zone/zone.component.ts:79-87 | the display has at least five characters; it starts with two digits for a non-negative count and with `"0-"` for a negative one |
| Zone.FormatRoundTrip | src/app/pages/zone/zone.component.ts:79-87 | below 100 minutes the display is `MM:SS` and decodes to the count |
| Zone.NegativeCountDoesNotAddUp | src/app/pages/zone/zone.component.ts:80-81 | for a negative count the floor and the truncating remainder do not add back up |
| Zone.ZoneTimer.LoadSavedZone | src/app/pages/zone/zone.component.ts:32-35 | an accepted saved value sets the zone; anything else keeps `'green'` (or the current zone) |
| Zone.ZoneTimer.SetZone | src/app/pages/zone/zone.component.ts:38-41 | the zone is set, and the stored string reads back as it |
| Zone.ZoneTimer.StartTimer | src/app/pages/zone/zone.component.ts:43-60 | nothing while running; otherwise it reloads `minutesInput * 60` only when the count is used up, and runs with exactly one interval |
| Zone.ZoneTimer.Tick | src/app/pages/zone/zone.component.ts:52-59 | a positive count decreases by one; at zero or below the timer stops; a non-negative count never goes negative |
| Zone.ZoneTimer.PauseTimer | src/app/pages/zone/zone.component.ts:62-66 | the timer is stopped, with no live interval, and the count is kept |
| Zone.ZoneTimer.ResetTimer | src/app/pages/zone/zone.component.ts:68-72 | stopped, with the count at 0 |
| Zone.ZoneTimer.StopTimer | src/app/pages/zone/zone.component.ts:74-77 | stopped, with no live interval |
| App.Reselect | src/app/app.ts:41-48 | the reselected student exists exactly when some table holds the id; it is the first such occupant and has the id |
| App.ReselectFindsSeated | src/app/app.ts:41-48 | a student still seated is reselected as reloaded, once no student sits at two tables |
| App.RowPosition | src/app/app.ts:34-37 | table `i` goes to `x = 100 + 120 * i`, `y = 150`, with its occupant kept |
| App.RowLayoutApart | src/app/app.ts:34-37 | tables laid out in that row do not overlap when at most 120 pixels wide |
| App.AppShell.LoadClassroom | src/app/app.ts:29-52 | every table is laid out in the row, occupants are kept, and a selection is replaced by `Reselect` |
| App.AppShell.SelectStudent | src/app/app.ts:54-60 | the selection toggles: cleared exactly when the same id was selected |

## Left out

- HTTP requests, `localStorage`, routing and change detection are left out.
  - Loaded data is a method input, and a POST is the outcome a method returns.
  - The chained POSTs of `openAddStudent` become the single `PostTable` outcome.
  - Loading remarks, bavardages and unfinished homework by date (`loadRemarques`, the course-date navigation and `sameLocalDay`) is not part of this model.
  - Deleting a student, saving groups, and the saved grid and sidebar state are not part of this model either.
- The DOM is left out.
  - `getBoundingClientRect` is a `Rect` parameter, and `applyGrid` and `saveClassroom` receive the plan's width and height.
  - The null checks on `planComponent` and on the sidebar view-child do not appear as branches: the page always has a plan.
  - `elementFromPoint`/`closest` with the child index become an optional target index.
- Randomness and timers are left out.
  - The shuffle `sort(() => 0.5 - Math.random())` is an input permutation of the class.
  - `setInterval` becomes the explicit `Tick` method, whose precondition is a live interval.
  - `setTimeout(applyGrid)` after loading is left to the caller.
  - The roulette page is not part of this model.
- `localeCompare(..., 'fr', {sensitivity: 'base'})` is stood in for by the lexicographic order of the ASCII-lower-cased family names.
  - The sort is a stable insertion sort.
  - Accent folding and locale collation are not modelled.
- `toLowerCase` is modelled on ASCII letters only, and `trim` on the common JavaScript white-space code points.
- Pixels are exact reals. IEEE rounding, `NaN` and infinities are not modelled. `Math.sqrt` in the drag threshold is compared on squares.
- `tableMoved.emit()` on mouse-up is not returned by the model.
- The plan and the page hold separate copies of the UI tables. Aliasing between them is not modelled.
- Numeric fields bound to inputs (`minutesInput`, `cols`, `rows`, `nombreGroupes`) are unbounded integers. `Number(eleveId)` is taken as already an integer.
- Plan.PlanController.SetGrid: requires `cols, rows >= 1`. The source accepts any number, but a zero or negative grid would divide by zero in the grid branch.
- Plan.PlanController.OnMouseMove: requires a container of positive size in grid mode. With an empty container the source divides by zero.
- Plan.PlanController.MoveTable: requires a container of positive size in grid mode, as `OnMouseMove` does.
- Sequences.Filter: its own contract states order, membership and completeness; how often each element is kept is stated by `Sequences.FilterCounts`, kept in a lemma of its own so that proofs using `Filter` do not carry a multiset clause.
- RemarkFilter.MatchingRemarks: likewise, how often each remark is kept is stated by `RemarkFilter.MatchingRemarksCounts`.
- Plan.FreeMoveOutcome: requires the table to fit in the container. With a larger table the clamp range is empty, and the committed position is 0, outside the range.
- Plan.DragTo: requires `cols, rows >= 1` and, in grid mode, a container of positive size, for the same reason.
- ClassroomDetail.ClassroomDetailPage.ApplyGrid: requires non-negative width and height, as a bounding rectangle has. `cols, rows >= 1` is part of the page's invariant.
- ClassroomDetail.ClassroomDetailPage.SaveClassroom: requires non-negative width and height, as above.
- Groupes.GroupesPage.AjouterEleve: requires the group to be one of the page's groups (an index into `groupes`); the source receives the group object from the page's list.
- Groupes.GroupesPage.RetirerEleve: requires the group to be one of the page's groups, as above.
- Groupes.GroupesPage.ToggleExpand: requires the group to be one of the page's groups, as above.
- Groupes.GroupesPage.RepartitionAleatoire: requires the shuffled list to be a permutation of the class, which is what the shuffle produces.
- Zone.FormatParts: stated for non-negative counts only. A negative count, reachable only through a negative `minutesInput`, breaks the identity, as `Zone.NegativeCountDoesNotAddUp` shows.
- Recovering a cell from a snapped position needs `0 < tableSize <= cellSize`. After `applyGrid` with cells of at most 10 pixels the table size is 0 or negative, and saving may then move tables; the model proves the save round trip only for larger cells.

## Findings

| source | as written | input that shows it | evidently intended | confidence | as-written member | corrected member |
|---|---|---|---|---|---|---|
| src/app/plan.component.ts:179-185 | in free mode the overlap test is applied to the unclamped candidate, which is then clamped into the container and committed untested | table 0 at (200, 0) dragged to x = -74 while table 1 stands at (30, 0), size 100, container 500 × 500: the candidate at -74 overlaps nothing, is clamped to x = 0 and then covers table 1 | test the position that is committed: clamp first, then refuse it if it overlaps another table | not executed | Plan.FreeMoveAsWrittenCanOverlap | Plan.FreeMovePreservesNoOverlap |

The drag controller (`DragTo`, `MoveTable`) keeps the free move as written, so the model of the component has the overlap this row describes. `FreeMove` is the corrected move, with its property proved beside it.
