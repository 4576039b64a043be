# Verified models of a Game Boy Advance emulator's algorithms

The repository is a Game Boy Advance emulator with a debugger, a test suite and the user
interface libraries it ships. This project models, in Dafny, the algorithms in it whose
correctness is not evident from reading one function:

| part | files | what is proved about it |
|---|---|---|
| event scheduler of the emulator core | `Events.dfy`, `Callbacks.dfy`, `Grid.dfy`, `Scheduler.dfy` | over whole runs, with callbacks that schedule and remove events while others fire: events fire in order of time, once, never early, late by no more than the last advance; none is lost; removed ones stay removed; periodic ones keep to their grid of times, however late each is served; for which callbacks the firing loop ends |
| skyline rectangle packer | `Skyline.dfy`, `Packing.dfy`, `RectPacker.dfy` | the search finds the optimum of its candidates, and a rectangle that fits anywhere is found a place; the in-place splice refines a function on skylines, the waste it weighs is the true free area in every run, every run packs without overlap, nodes are conserved; exactly when the nodes suffice |
| undo and redo of the text editor | `Zipper.dfy`, `TextEdit.dfy` | two stacks in one record array and one character array refine a zipper of texts; which undo is refused, which redo stays complete, what an incomplete one puts in; what never has to be dropped |
| test driver and name filter of doctest | `Subcases.dfy`, `Glob.dfy` | the runs of the re-entry loop are given for every body: the leaves of the subcase tree once and in order, exactly if siblings have different signatures; the greedy matcher decides the meaning of a pattern, in both case modes |
| packed colours and colour maps | `ColorMix.dfy`, `Colormap.dfy` | two packed forms of mixing equal the mix of each channel; the derived tables always follow the keys |
| breakpoint database and register lists of the debugger | `Breakpoints.dfy`, `RegisterList.dfy` | what is dropped as a duplicate, said by hits, and when that loses one; a printed register list reads back as the mask |

Code that changes state in place is modelled by classes and methods with loops (`Scheduler`,
`Context`, `TextEditState`, `ContextState`, `ColormapData`, `BreakpointDatabase`), each proved
against functions on values (`Events.After`, `Callbacks.Unroll`, `Packing.PackOne`, `Zipper.Record`, `Zipper.Undo`,
`Zipper.Redo`, `Subcases.RunBody`, `Colormap.Table`, `Breakpoints.AddAll`, `RegisterList.Items`);
the lemmas then state what holds of those functions. `dafny verify dfyconfig.toml` checks
everything.

## What came out

Where the code does not do what its comments or its purpose suggest, the model follows the code:

* **Nodes of the packer.** A comment (imstb_rectpack.h:252-258) says that rounding widths up to a
  multiple of `align` makes `num_nodes` always enough. The width is rounded only while a place is
  searched for; the splice uses the width as it is. While widths are rounded, no run is ever out of
  nodes if and only if `num_nodes >= width`, or the target has no height, or it is one high and
  narrower than `num_nodes` columns and one rounded width together (`Packing.NodesSufficeIff`).
  Otherwise requests for unit squares alone use the nodes up.
* **Refusals of the packer.** The search looks at places where a segment begins (or ends) only. It
  misses nothing: a rectangle is refused if and only if no node is free, or it fits at no column
  of the target (`Packing.RefusedIff`); with `num_nodes >= width` the first never happens
  (`Packing.FittingIsPacked`).
* **Waste under a place.** One branch of the search does not cut the first segment off at the place's
  left edge. It makes no difference: in every run the floor is only at the right end of the skyline,
  since a place on the floor is always chosen at its left end, and so the computed waste is the free
  area for every window (`Packing.RunsComputeFreeArea`).
* **Height of the skyline.** With `num_nodes >= width` every column of the skyline is the top of
  a rectangle over it, or the floor (`Packing.RunsAreExact`). With rounding it is only an upper bound,
  which is enough for safety.
* **Undo and its redo.** As long as the redo records are complete, an undo restores the text, and they
  stay complete if and only if the characters taken out fit between the two stacks, with one to
  spare from the undo side. Complete records claim to give back just what the buffer holds. When
  redo records have to be discarded for an undo, the characters saved for it are noted in a copy of
  the first of these, with its length: the claims grow or shrink by the difference of the two
  numbers (`TextEdit.TextEditState.ClaimsAfterUndo`). Of a later undo that takes characters out and
  has space beside the undo records, `TextEdit.TextEditState.NextUndoCases` says exactly what
  becomes. It is refused, at the return that is marked as never happening, if and only if all claims
  together do not free enough; the text stays as it is, and every further undo is refused as well
  (unless all records were in use: then the undo record is overwritten). It moves a block past the
  end of the buffer if and only if the last record that it has to discard claims more than is left
  there; this needs claims that exceed the buffer. Otherwise it is done. Texts of 950, 600
  and 500 characters put in lead, after two undos, to the first case (`TextEdit.UndoIsRefused`),
  and texts of 750, 300 and 800 to the second (`TextEdit.UndoOverruns`). When records were discarded,
  the next redo puts in the text just taken out, cut off at the length in that copy
  (`TextEdit.TextEditState.NextRedoPutsIn`): texts of 600 and 500 characters put in, two undos and a
  redo show 500 characters of the first (`TextEdit.RedoIsCutOff`). One text put in and taken out can
  be redone if and only if it is shorter than 999 characters (`TextEdit.PutInTakeOut`).
* **What the history keeps.** Up to 99 edits that store up to 999 characters in all can all be taken
  back, with any undos and redos in between (`Zipper.FewEditsKeepAll`); of more edits the last 99 are
  kept (`Zipper.KeptEdits`).
* **Breakpoints.** A breakpoint is turned away if and only if one in the database, were both switched
  on and neither looking for a value, hits everything that it hits, and looks for the same value or
  at any width (`Breakpoints.SuppressesIff`). A write is lost by dropping duplicates if and only if a breakpoint for any width
  and one value is in the database, and one for another value (or for all) is added within its
  range (`Breakpoints.SuppressedIsCovered`, `Breakpoints.WritesKeptIff`). A breakpoint that is
  switched off drops duplicates as well: added again, it stays off (`Breakpoints.SwitchedOffIsLost`).
  With additions, switches and deletions in any order, reads are kept if and only if every addition
  that was dropped is covered by what is switched on, which can be looked up at its first address
  and where other breakpoints end (`Breakpoints.ReadsKeptIff`).
* **Subcases.** The re-entry loop stops for every test body. It runs every leaf once and in order if
  and only if sibling subcases have different signatures (name, file and line) everywhere
  (`Subcases.ContextState.RunTest`, `Subcases.VisitsAreLeavesIff`). Otherwise it runs the leaves of
  the body without the subcases that repeat the signature of an earlier sibling
  (`Subcases.VisitsAreTrimmedLeaves`). Besides, a body or subcase whose last child repeats a signature
  takes one more run, in which nothing is entered in it (`Subcases.IdleIffLastRepeats`).
* **Scheduler.** The loop that fires events ends if and only if there is no run in which it goes on
  for ever (`Callbacks.EndsIff`), or, within a set of states that it does not leave, if and only if
  some rank of machine and scheduler falls with every turn (`Callbacks.EndsIffRanked`). That is so for
  all callbacks that schedule nothing without delay when they are on time (`Callbacks.PatientEnds`),
  among them those that schedule after a period less their lateness, also when
  they are late by just that period (`Callbacks.PeriodicEnds`). Callbacks that always schedule
  something at once never let it end (`Callbacks.ImpatientNeverEnds`).
* **Periods.** Callbacks that schedule one another after fixed periods less what they are told to be
  late fire on a fixed grid of times, in every run of advances no longer than the periods and with
  anything else going on that does not touch them: between calls exactly those have fired whose time on the grid has come
  (`Grid.FiresOnGrid`). One that is late by more than its period leaves the grid (`Grid.NextOnGrid`).

## Model

| member | source | states |
|---|---|---|
| Events.FiresInOrder | gba/include/gba/core/scheduler.h:157-171 | in any run, through any number of advances and whatever callbacks schedule or remove in between, events fire in nondecreasing order of their timestamps |
| Events.EventsAreConserved | gba/include/gba/core/scheduler.h:129-171 | every event ever scheduled is pending, has fired or was removed before it fired, and exactly one of the three |
| Events.HandlesAreFresh | gba/include/gba/core/scheduler.h:129-134 | handles of all events ever scheduled are the numbers from 1 up to the last one given out, no two alike |
| Events.NoneIsMissed | gba/include/gba/core/scheduler.h:157-171 | after an advance, an event that was not removed has fired if and only if its time has come |
| Events.RemovedIff | gba/include/gba/core/scheduler.h:145-155 | an event counts as removed if and only if a removal named its own handle while it was scheduled and had not fired |
| Events.FiresUnlessRemoved | gba/include/gba/core/scheduler.h:145-171 | after an advance, an event whose handle no removal named has fired if and only if its time has come |
| Events.FiresOnce | gba/include/gba/core/scheduler.h:157-171 | no handle fires twice in a run |
| Events.RemovedStaysRemoved | gba/include/gba/core/scheduler.h:145-155 | after a removal by handle, neither that event nor a later one in its place fires under the handle |
| Events.LatenessIsBounded | gba/include/gba/core/scheduler.h:159-169 | an event never fires early, and is late by at most the cycles of the last advance, so narrowing the lateness to 32 bits loses nothing |
| Callbacks.WakesOnTime | gba/include/gba/core/scheduler.h:174-175 | advancing by the remaining cycles to the next event makes an event fire, the first one with no lateness, and it is a least pending one |
| Callbacks.EndsIff | gba/include/gba/core/scheduler.h:161-170 | the firing loop ends within some number of turns, whichever of several least events fires first, if and only if no run of it goes on for ever |
| Callbacks.EndsIffRanked | gba/include/gba/core/scheduler.h:161-170 | in a set of configurations that the loop does not leave, it always ends if and only if some rank of machine and scheduler state falls whenever a least due event fires |
| Callbacks.PatientEnds | gba/include/gba/core/scheduler.h:161-170 | from every state the loop ends if events that fire on time schedule nothing without delay, however many the late ones schedule |
| Callbacks.PeriodicEnds | gba/src/ppu/ppu.cpp:52 | it ends for all callbacks that schedule after a period less their lateness in 32-bit arithmetic, with any period each time, also when that delay comes to 0 |
| Callbacks.PeriodKeepsGrid | gba/src/apu/apu.cpp:54 | an event scheduled again that way is due one period after the last one if and only if it was late by no more than the period |
| Grid.NextOnGrid | gba/include/gba/core/scheduler.h:164-169 | from clock and timestamp alone: when an event of a chain fires, the next one is pending at its timestamp plus the period if and only if the clock is past it by no more than the period; events of others leave the chain as it is |
| Grid.RunsKeepTime | gba/include/gba/core/scheduler.h:157-171 | over any advances no longer than the periods, with foreign callbacks and calls in between, the k-th firing of a chain has the k-th callback and time of its grid, and the one after the last is pending |
| Grid.FiresOnGrid | gba/include/gba/core/scheduler.h:157-171 | and in the history between calls exactly those n events of the chain have fired whose times on the grid have come |
| Grid.SinglePeriod | gba/src/apu/apu.cpp:52-54 | for a callback that schedules itself the k-th time is first + k * period |
| Grid.TwoPhases | gba/src/ppu/ppu.cpp:50-82 | for two callbacks that schedule each other they alternate, and a line is as long as both periods together |
| Callbacks.ImpatientNeverEnds | gba/include/gba/core/scheduler.h:161-170 | if every callback schedules something at once, the loop does not end within any number of turns once an event is due, in any state |
| Scheduler.FrontIsLeast | gba/include/gba/core/scheduler.h:174 | the front of a binary heap is its earliest event |
| Scheduler.PopHeap | gba/include/gba/core/scheduler.h:165-166 | what the loop may rely on: the front goes to the back, the rest is a heap again, no element is lost or made |
| Scheduler.Scheduler.AddHwEvent | gba/include/gba/core/scheduler.h:129-134 | the event is pending at now plus delay under a handle no event ever had; nothing else changes |
| Scheduler.Scheduler.HasEvent | gba/include/gba/core/scheduler.h:136-143 | true if and only if an event with the handle is pending |
| Scheduler.Scheduler.RemoveEvent | gba/include/gba/core/scheduler.h:145-155 | exactly the event with the handle, if it is pending, is gone, and the heap is one of the others |
| Scheduler.Scheduler.AddCycles | gba/include/gba/core/scheduler.h:157-171 | given that the loop ends in every order of events of equal time, it ends, nothing is due any more, and the history grew by the tick and one burst after the other: an enabled firing of a least event, told its lateness (which the lemmas of Grid say from clock and timestamp), and just what its callback did |
| Scheduler.Scheduler.RemainingCyclesToNextEvent | gba/include/gba/core/scheduler.h:174-175 | the difference is not negative and leads to the time of a least pending event |
| Columns.HighestIsMaximum | external/imgui_sfml/include/imstb_rectpack.h:295-343 | the level of a window is the least upper bound of its columns' heights |
| Skyline.ComputedWasteIsFreeArea | external/imgui_sfml/include/imstb_rectpack.h:316-338 | with floor only at the right end, the waste summed up by the search is, for every window, the free area under its level, column by column |
| Packing.FloorPlaceIsLeft | external/imgui_sfml/include/imstb_rectpack.h:421-444 | a place on the floor is never chosen away from the floor's left end, as the place there is as low, leaves as little free and is further left |
| Packing.RunsComputeFreeArea | external/imgui_sfml/include/imstb_rectpack.h:295-343 | after any requests, heuristics and roundings, the computed waste of every window of the skyline is its free area |
| Skyline.SpliceRaises | external/imgui_sfml/include/imstb_rectpack.h:468-502 | the splice gives a skyline of the same width that has the new height over the columns from the rectangle's left edge to the end of the cover, and the old height everywhere else |
| Packing.PickIsOptimal | external/imgui_sfml/include/imstb_rectpack.h:375-445 | the running choice is one of the candidates and no candidate is preferred to it |
| Packing.CandidatesAreThePlaces | external/imgui_sfml/include/imstb_rectpack.h:371-445 | the candidates are exactly the admissible places: left edges at a node within the width and, for best-fit, right edges at a node, those that fit in height |
| Packing.BestIsOptimal | external/imgui_sfml/include/imstb_rectpack.h:351-450 | the place chosen is admissible and least in (y, x) for bottom-left, in (y, free area, x) for best-fit; none is chosen if and only if none is admissible |
| Packing.HeuristicsChoose | external/imgui_sfml/include/imstb_rectpack.h:230-240 | what the setting means: without best-fit the lowest, then leftmost window that starts at a segment; with it the lowest, then tightest, then leftmost of those that start or end at one and fit in height |
| Packing.RefusedIff | external/imgui_sfml/include/imstb_rectpack.h:458-466 | a rectangle is refused if and only if no node is free or no column x of the target has level + h <= height over the rounded width: moving left to the start of a segment never raises the level, so no fit is missed |
| Packing.FittingIsPacked | external/imgui_sfml/include/imstb_rectpack.h:140-142 | with at least as many nodes as columns, in every run, a rectangle is refused if and only if it fits at no column |
| Packing.PackOneKeeps | external/imgui_sfml/include/imstb_rectpack.h:453-530 | packing any rectangle keeps the invariant: skyline well formed, all packed rectangles inside the target, under the skyline and apart from each other, active and free nodes together num_nodes + 2 |
| Packing.RunsAreSafe | external/imgui_sfml/include/imstb_rectpack.h:453-530 | after any sequence of requests, changes of heuristic and of rounding, all packed rectangles lie inside the target and no two overlap |
| Packing.EnoughNodes | external/imgui_sfml/include/imstb_rectpack.h:140-142 | with at least as many nodes as columns a free node is left in every reachable state |
| Packing.NodesSufficeIff | external/imgui_sfml/include/imstb_rectpack.h:252-258 | while widths are rounded, no run refuses a fitting place for want of a node if and only if num_nodes >= width, or the height is 0, or it is 1 and the width less than num_nodes and one rounded width |
| Packing.NodesSufficeUnroundedIff | external/imgui_sfml/include/imstb_rectpack.h:140-149 | over all runs, also those that allow to run out of nodes, that holds if and only if num_nodes >= width |
| Packing.UnitsRunOut | external/imgui_sfml/include/imstb_rectpack.h:252-258 | in all other cases num_nodes requests for unit squares, with nothing set up differently, lead to such a refusal |
| Packing.RunsAreExact | external/imgui_sfml/include/imstb_rectpack.h:140-149 | with enough nodes the skyline is in every run from the initial state exactly the upper outline of the packed rectangles |
| Packing.ExactRun | external/imgui_sfml/include/imstb_rectpack.h:453-530 | and so it stays in every run from any state in which it is |
| RectPacker.Context.InitTarget | external/imgui_sfml/include/imstb_rectpack.h:262-292 | nodes, extra nodes and both lists are linked up as the initial state of the specification |
| RectPacker.Context.SetupAllowOutOfMem | external/imgui_sfml/include/imstb_rectpack.h:242-260 | align becomes 1 or the rounded-up quotient of width and number of nodes |
| RectPacker.Context.SetupHeuristic | external/imgui_sfml/include/imstb_rectpack.h:230-240 | only the heuristic changes |
| RectPacker.Context.FindMinY | external/imgui_sfml/include/imstb_rectpack.h:295-343 | the walk along the list returns the highest column of the window and the area left free under it, and never follows a null link |
| RectPacker.Context.SearchLeft | external/imgui_sfml/include/imstb_rectpack.h:369-389 | the loop holds the best of all left-aligned places and the link that leads to its node |
| RectPacker.Context.FirstAdmissible | external/imgui_sfml/include/imstb_rectpack.h:413-419 | the first node with room for the width on its left |
| RectPacker.Context.AdvanceTo | external/imgui_sfml/include/imstb_rectpack.h:423-427 | the node whose segment covers the left edge, and the link that leads to it |
| RectPacker.Context.SearchRight | external/imgui_sfml/include/imstb_rectpack.h:411-445 | the loop holds the best of all left- and right-aligned places |
| RectPacker.Context.FindBestPos | external/imgui_sfml/include/imstb_rectpack.h:351-450 | the result is the best place for the rounded width, or none |
| RectPacker.Context.Insert | external/imgui_sfml/include/imstb_rectpack.h:468-487 | the first free node becomes the new segment, the active list is cut at the right place, no node is in two places |
| RectPacker.Context.Release | external/imgui_sfml/include/imstb_rectpack.h:489-497 | exactly the segments that end at or left of the right edge move to the free list |
| RectPacker.Context.Stitch | external/imgui_sfml/include/imstb_rectpack.h:499-503 | the lists are whole again: disjoint, null-terminated, the active one with the first remaining segment cut off at the right edge |
| RectPacker.Context.PutOnSkyline | external/imgui_sfml/include/imstb_rectpack.h:468-503 | the surgery on the linked nodes is the splice on the skyline, and the number of free nodes changes by the difference in length |
| RectPacker.Context.PackRectangle | external/imgui_sfml/include/imstb_rectpack.h:453-530 | one call is one step of the specification; no place is returned if and only if no node is free or the rectangle fits at no column of the target, otherwise the best place |
| RectPacker.FlagAnswers | external/imgui_sfml/include/imstb_rectpack.h:588-592 | the marker position 0xffff is never that of a packed rectangle, so the flag is 0 if and only if the rectangle was refused, that is no node was free or it fitted at no column |
| RectPacker.SortedIsHighestFirst | external/imgui_sfml/include/imstb_rectpack.h:533-542 | an order that the comparison allows goes down in height, and in width among equal heights |
| RectPacker.BackInPlace | external/imgui_sfml/include/imstb_rectpack.h:544-550 | sorting by the remembered index undoes the first sort, whichever arrangement that arrived at |
| RectPacker.AnswersAreSafe | external/imgui_sfml/include/imstb_rectpack.h:558-596 | what the caller reads in the array: packed rectangles lie inside the target, apart from each other and from those of earlier calls |
| RectPacker.Context.PackRects | external/imgui_sfml/include/imstb_rectpack.h:558-596 | requests are packed highest first, answers come back in the caller's order with id and size unchanged, flagged as packed if and only if empty or placed, safely placed, and the result is true if and only if all are packed |
| Zipper.RecordSound | external/imgui_sfml/include/imstb_textedit.h:1181-1223 | an edit on record keeps the storage invariant: records and characters of both stacks fit, and the whole future can be redone |
| Zipper.UndoSound | external/imgui_sfml/include/imstb_textedit.h:1225-1291 | so does an undo that has room |
| Zipper.RedoSound | external/imgui_sfml/include/imstb_textedit.h:1304-1318 | a redo has room for the characters it takes out, as the comment claims, and leaves a state in which the next one does |
| Zipper.RunsAreSound | external/imgui_sfml/include/imstb_textedit.h:1225-1342 | in any run of edits, undos and redos whose undos have room, the buffers never overflow and every redo has room |
| Zipper.RoomCanRunOut | external/imgui_sfml/include/imstb_textedit.h:1252-1265 | a run from the empty history after which the next undo has no room: 600 and then 500 characters put in, and one undo |
| Zipper.UndoRedoInverse | external/imgui_sfml/include/imstb_textedit.h:1225-1342 | a redo takes back an undo and an undo takes back a redo, in text and in records |
| Zipper.UndoManyRedoMany | external/imgui_sfml/include/imstb_textedit.h:1225-1342 | n undos show the text of n edits ago, and n redos lead all the way back |
| Zipper.RunShows | external/imgui_sfml/include/imstb_textedit.h:1181-1342 | any mix of edits, undos and redos shows the texts that an unbounded zipper shows, as long as no undo reaches an entry that was dropped |
| Zipper.FewEditsKeepAll | external/imgui_sfml/include/imstb_textedit.h:1181-1342 | what a caller can check before: with up to 99 edits that store up to 999 characters, and any undos and redos among them, nothing is dropped and all texts of the unbounded zipper are shown |
| Zipper.AllTakenBack | external/imgui_sfml/include/imstb_textedit.h:1181-1291 | so many edits are all taken back by as many undos |
| Zipper.KeptEdits | external/imgui_sfml/include/imstb_textedit.h:1181-1203 | of edits that store nothing the last 99 are kept, no more and no less |
| Zipper.BigEditForgets | external/imgui_sfml/include/imstb_textedit.h:1190-1195 | an edit that has to store more than 999 characters forgets the whole past, any other can be taken back |
| Zipper.TrimIsSuffix | external/imgui_sfml/include/imstb_textedit.h:1198-1200 | making room drops the oldest records only |
| Zipper.TrimIsLeast | external/imgui_sfml/include/imstb_textedit.h:1198-1200 | and no more of them than necessary |
| TextEdit.TextEditState.FlushRedo | external/imgui_sfml/include/imstb_textedit.h:1122-1126 | an edit forgets the future and nothing else |
| TextEdit.TextEditState.DiscardUndo | external/imgui_sfml/include/imstb_textedit.h:1129-1145 | exactly the oldest undo record goes; every other keeps its position, lengths and stored text after both moves and the shift of offsets |
| TextEdit.TextEditState.DiscardRedo | external/imgui_sfml/include/imstb_textedit.h:1151-1179 | the same for the oldest redo record at the far end |
| TextEdit.TextEditState.CreateUndoRecord | external/imgui_sfml/include/imstb_textedit.h:1181-1203 | the loop that makes room ends and has dropped the least number of old records; more than 999 characters clear the past |
| TextEdit.TextEditState.CreateUndo | external/imgui_sfml/include/imstb_textedit.h:1205-1223 | the new record, with the characters stored, leads back from the new text to the old one |
| TextEdit.CompleteHasRoom | external/imgui_sfml/include/imstb_textedit.h:1258-1265 | with complete redo records, discarding them frees enough for any undo that leaves space beside the undo records |
| TextEdit.ReclaimIs | external/imgui_sfml/include/imstb_textedit.h:1258-1265 | discarding redo records is refused if and only if all of them together do not free enough; otherwise as many are dropped as are needed and no more, and the place reached is the sum of what they give back |
| TextEdit.OverrunIs | external/imgui_sfml/include/imstb_textedit.h:1157-1161 | a discard goes past the end of the buffer if and only if, with what was dropped before it not enough, it claims more than is left |
| TextEdit.TextEditState.MakeRoom | external/imgui_sfml/include/imstb_textedit.h:1258-1265 | for any redo records: the loop ends with the outcome that the sums determine; what is below the redo records is not touched, and a copy of the first dropped record is left there |
| TextEdit.TextEditState.SaveChars | external/imgui_sfml/include/imstb_textedit.h:1232-1274 | whenever room was made, the characters taken out are stored at the redo character point, discards or not; the new redo record holds them if nothing had to be discarded; otherwise they are noted in a copy of the first redo record, with its position and lengths; refused, overrun or room follow from the sums |
| TextEdit.TextEditState.SaveForRedo | external/imgui_sfml/include/imstb_textedit.h:1232-1275 | the three cases of the comment: room, no room and no space, with what each leaves in records and counters: the record for the redo and the characters that it is to put in |
| TextEdit.TextEditState.NextUndoCases | external/imgui_sfml/include/imstb_textedit.h:1252-1265 | in every valid state: the next undo is refused if and only if free characters and claims together are fewer than it needs, passes the end only if they exceed the buffer, and else discards the least number of records |
| TextEdit.TextEditState.ClaimsAfterUndo | external/imgui_sfml/include/imstb_textedit.h:1266-1269 | an undo leaves free characters and claims together as they are, or, if it has to discard, changes them by the length of the first redo record less the characters it takes out |
| TextEdit.TextEditState.CompleteClaims | external/imgui_sfml/include/imstb_textedit.h:1225-1291 | complete redo records and the free characters together make up the buffer |
| TextEdit.TextEditState.UndoEdit | external/imgui_sfml/include/imstb_textedit.h:1225-1291 | from every valid state: if the outcome is room, text and history are those before the last edit; if it is refused, the text stays, and the state is valid and every further undo refused if and only if the undo record did not share its slot with the redo record made for it; with complete redo records there is always room in the end, and they stay complete if and only if there was room at once; after any undo that is done, the next redo record is the one specified and the characters just taken out are stored at the redo character point |
| TextEdit.UndoIsRefused | external/imgui_sfml/include/imstb_textedit.h:1259-1266 | a run from the empty state that ends with an undo that is refused |
| TextEdit.UndoOverruns | external/imgui_sfml/include/imstb_textedit.h:1157-1161 | a run from the empty state after which the next undo would pass the end of the buffer |
| TextEdit.PushReplaced | external/imgui_sfml/include/imstb_textedit.h:1300-1330 | the undo record and the characters saved by a redo lead back to the text before it |
| TextEdit.TextEditState.RedoEdit | external/imgui_sfml/include/imstb_textedit.h:1293-1342 | with complete redo records every record applies, the fallback for lack of room is never taken and the text becomes that after the undone edit; from every other valid state, unless the record reaches outside text or buffer, the replacement that it names is made, and can be undone if and only if there was room to record it, else the undo record is empty |
| TextEdit.TextEditState.NextRedoPutsIn | external/imgui_sfml/include/imstb_textedit.h:1232-1342 | when the text just taken out is stored at the redo character point and the next redo record names that place, a redo puts in as many of its first characters as the record says |
| TextEdit.RedoIsCutOff | external/imgui_sfml/include/imstb_textedit.h:1258-1335 | a run on any texts of 600 and 500 characters: both put in, both taken out and the first redone shows the first text cut off at 500 |
| TextEdit.PutInTakeOut | external/imgui_sfml/include/imstb_textedit.h:1247-1250 | a text put in and taken out can be redone in full if and only if it is shorter than 999 characters |
| TextEdit.TextEditState.Clamp | external/imgui_sfml/include/imstb_textedit.h:577-588 | each end of the selection and the cursor is cut to the text's length, the cursor follows a selection that collapses, and a state that fits is not changed |
| TextEdit.TextEditState.DeleteChars | external/imgui_sfml/include/imstb_textedit.h:591-596 | text and history after a deletion on record |
| TextEdit.SelectedIs | external/imgui_sfml/include/imstb_textedit.h:599-612 | a character is selected if and only if it is in the text and between the two ends of the selection, in whichever order these come |
| TextEdit.ReplacedAt | external/imgui_sfml/include/imstb_textedit.h:1300-1342 | every character of a text after a replacement, by its position |
| TextEdit.TextEditState.DeleteSelection | external/imgui_sfml/include/imstb_textedit.h:599-612 | the selected range, whichever end comes first and clamped to the text, is deleted as one step of the history |
| TextEdit.TextEditState.Cut | external/imgui_sfml/include/imstb_textedit.h:696-704 | the answer tells whether something was selected; the history gets one deletion or none |
| TextEdit.TextEditState.Paste | external/imgui_sfml/include/imstb_textedit.h:707-725 | two steps of the history when something is selected, a deletion and an insertion at its place; otherwise one |
| TextEdit.TextEditState.TypeChar | external/imgui_sfml/include/imstb_textedit.h:736-762 | one step that replaces a character in insert mode, otherwise as for a paste of one character; a newline in a single line does nothing |
| TextEdit.TextEditState.KeyDelete | external/imgui_sfml/include/imstb_textedit.h:994-1004 | the selection or the character at the cursor goes, as one step |
| TextEdit.TextEditState.KeyBackspace | external/imgui_sfml/include/imstb_textedit.h:1006-1018 | the selection or the character before the clamped cursor goes, as one step |
| Subcases.RunIsNextVisit | external/doctest/doctest.h:3584-3643 | for every body: after k visits one execution enters exactly the subcases down the path of visit k, marks just what is complete, and asks for another run if and only if a visit remains |
| Subcases.VisitsAreTrimmedLeaves | external/doctest/doctest.h:3596-3626 | the visits that are not idle lead to the leaves, in order, of the body without subcases that repeat the signature of an earlier sibling |
| Subcases.TrimmedIsDistinct | external/doctest/doctest.h:3342-3348 | that body has distinct siblings everywhere |
| Subcases.IdleIffLastRepeats | external/doctest/doctest.h:3596-3614 | a run enters nothing of a body if and only if it is the last run and the last subcase repeats the signature of an earlier one |
| Subcases.VisitsAreLeavesIff | external/doctest/doctest.h:3342-3348 | the visits lead to all leaves, each once and in order, if and only if siblings have different signatures everywhere |
| Subcases.LeafPathsDistinct | external/doctest/doctest.h:702-709 | with distinct sibling signatures no two leaves have the same path |
| Subcases.RunEnters | external/doctest/doctest.h:3596-3626 | a run of any body does nothing or passes a new path, and enters no path that had passed before |
| Subcases.ContextState.EnterSubcase | external/doctest/doctest.h:3596-3614 | the constructor's three outcomes on stack, level, re-entry flag and what is reported |
| Subcases.ContextState.LeaveSubcase | external/doctest/doctest.h:3621-3626 | the path is marked as passed only if nothing was put off, and the stack is as before |
| Subcases.ContextState.RunTest | external/doctest/doctest.h:6267-6314 | the loop ends for every body, and run k reports exactly the subcases down the path of visit k; these are the paths to the leaves in depth-first order, as many as leaves (one run without subcases), if and only if siblings have different signatures everywhere |
| Glob.StarMeans | external/doctest/doctest.h:3524-3525 | a star matches exactly if the rest of the pattern matches some suffix |
| Glob.LastStarOnly | external/doctest/doctest.h:3539-3554 | when the part between two stars lies on the text as far left as possible, going on from the second star alone loses no match |
| Glob.AtEnd | external/doctest/doctest.h:3556-3559 | at the end of the text a match exists if and only if only stars are left |
| Glob.MatchesIffSplit | external/doctest/doctest.h:3524-3525 | a text matches if and only if it falls into pieces, one for each character of the pattern: any text for a star, one character for a question mark, else that very character |
| Glob.PlainMatchesItself | external/doctest/doctest.h:3530-3534 | a pattern without stars and question marks matches, letter case regarded, the text equal to it alone |
| Glob.CaseIsLowered | external/doctest/doctest.h:3531 | letter case disregarded, any text matches any pattern if and only if, both lowered, it does with letter case regarded |
| Glob.ToLower | external/doctest/doctest.h:3531 | lowering adds 32 to the codes 65 to 90 and leaves every other character |
| Glob.Wildcmp | external/doctest/doctest.h:3526-3560 | the greedy loop ends, and returns true if and only if the text matches the pattern in its recursive meaning, for both case modes (which the lemmas above say by pieces and by lowering) |
| Glob.MatchesAny | external/doctest/doctest.h:3572-3580 | true if and only if some filter matches, or there is none and the caller asked for that to match |
| ColorMix.MasksAreBytes | external/imgui_sfml/include/implot_internal.h:164-174 | the masks 0x00ff00ff and 0xff00ff00 cut out bytes 0, 2 and 1, 3 of a word of any width |
| ColorMix.OddOrEven | external/imgui_sfml/include/implot_internal.h:164-177 | combining words under the two masks by a bitwise or is adding them |
| ColorMix.MixedFits | external/imgui_sfml/include/implot_internal.h:160 | a weighted channel fits in 16 bits for every factor in [0 256] |
| ColorMix.Sums32 | external/imgui_sfml/include/implot_internal.h:175-176 | the packed sums are the sums of the two channels each, with no carry between them |
| ColorMix.Mix32Channels | external/imgui_sfml/include/implot_internal.h:169-177 | every channel of the 32-bit form is (a * (256 - s) + b * s) / 256 |
| ColorMix.Mix64IsMix32 | external/imgui_sfml/include/implot_internal.h:162-167 | the 64-bit form gives the same colour |
| ColorMix.MixEnds | external/imgui_sfml/include/implot_internal.h:159-160 | factor 0 gives the first colour and factor 256 the second |
| Colormap.TableAt | external/imgui_sfml/include/implot_internal.h:393-418 | entry 255 * i of a continuous table is key i, and the entries up to the next key are the mixes of the two in 255 steps |
| Colormap.LaidOutTiles | external/imgui_sfml/include/implot_internal.h:388-392 | rows behind each other tile the vector: each is found at its offset, and the next begins where it ends |
| Colormap.ColormapData.Append | external/imgui_sfml/include/implot_internal.h:362-379 | a new name adds one map with its table behind the others and is found under the index returned; a known one changes nothing and gives -1 |
| Colormap.ColormapData.IndexOfName | external/imgui_sfml/include/implot_internal.h:429-430 | each map is found under its own name and no other, and a name without a map gives -1 |
| Colormap.ColormapData.AppendTable | external/imgui_sfml/include/implot_internal.h:381-418 | the table computed from the keys goes behind the others |
| Colormap.ColormapData.RebuildTables | external/imgui_sfml/include/implot_internal.h:420-426 | all tables are those of the keys again |
| Colormap.ColormapData.SetKeyColor | external/imgui_sfml/include/implot_internal.h:435 | one key of one map changes, and all tables follow |
| Colormap.ColormapData.TableFollowsKeys | external/imgui_sfml/include/implot_internal.h:381-438 | after any sequence of calls each cached entry is that of the current keys, read through the stored offsets and sizes |
| Breakpoints.BreakpointDatabase.AddAccessBreakpoint | gba_debugger/src/breakpoint_database.cpp:98-116 | the breakpoint goes to the end, unless one in the database stands in for it: one that, were both switched on and neither looking for a value, hits every read and write that it hits, and looks for the same value or at any width |
| Breakpoints.SuppressesIff | gba_debugger/src/breakpoint_database.cpp:28-33 | the four searches turn a breakpoint away for just those that stand in for it in this sense |
| Breakpoints.StandsInForHits | gba_debugger/src/breakpoint_database.cpp:98-116 | for breakpoints switched on and with equal values: if and only if the one hits every read and every write that the other hits |
| Breakpoints.BreakpointDatabase.SwitchAccessBreakpoint | gba_debugger/src/cpu_debugger.cpp:258-262 | one breakpoint is switched on or off, nothing else changes |
| Breakpoints.BreakpointDatabase.DeleteAccessBreakpoint | gba_debugger/src/cpu_debugger.cpp:269-271 | one breakpoint goes, the others stay in order |
| Breakpoints.DeletedHitsNothing | gba_debugger/src/cpu_debugger.cpp:269-271 | after a deletion exactly the reads and writes are hit that another breakpoint hits |
| Breakpoints.SwitchedHits | gba_debugger/src/cpu_debugger.cpp:258-262 | one switched off hits as little as one deleted, one switched on adds its hits to those of the others, and switching twice changes nothing |
| Breakpoints.BreakpointDatabase.GetEnabledReadBreakpoint | gba_debugger/src/breakpoint_database.cpp:43-54 | a breakpoint if and only if a read hits one, and then the first enabled one |
| Breakpoints.BreakpointDatabase.GetEnabledWriteBreakpoint | gba_debugger/src/breakpoint_database.cpp:56-68 | a breakpoint if and only if a write hits one, and then the first enabled one |
| Breakpoints.NoneIsSuperfluous | gba_debugger/src/breakpoint_database.cpp:98-116 | after any sequence of additions no breakpoint in the database suppresses a later one |
| Breakpoints.ReadsAreKept | gba_debugger/src/breakpoint_database.cpp:98-116 | after any sequence of additions a read hits the database if and only if it hits something that was added |
| Breakpoints.FirstReadIsKept | gba_debugger/src/breakpoint_database.cpp:43-54 | and it is the same breakpoint that is hit first, so that logging and suspending are kept as well |
| Breakpoints.SuppressedIsCovered | gba_debugger/src/breakpoint_database.cpp:28-33 | a suppressing breakpoint hits all writes of the suppressed one if and only if it is not for any width with a value that the other does not have |
| Breakpoints.WritesAreKept | gba_debugger/src/breakpoint_database.cpp:98-116 | without such a pair, writes hit the database if and only if they hit something that was added |
| Breakpoints.FirstWriteIsKept | gba_debugger/src/breakpoint_database.cpp:56-68 | and they hit the same breakpoint first |
| Breakpoints.NoValueKeepsWrites | gba_debugger/src/breakpoint_database.cpp:98-116 | in particular when breakpoints for any width watch for no particular value |
| Breakpoints.WritesKeptIff | gba_debugger/src/breakpoint_database.cpp:98-116 | for a stock of breakpoints: all sequences of additions keep all writes if and only if no such pair is in it |
| Breakpoints.MissedWrite | gba_debugger/src/breakpoint_database.cpp:28-33 | for every such pair, adding the two loses a write |
| Breakpoints.CoveredIffAtEnds | gba_debugger/src/breakpoint_database.cpp:46-52 | every read that a breakpoint would hit hits the database if and only if that holds at its first address and at the ends of the breakpoints in the database |
| Breakpoints.ReadsKeptIff | gba_debugger/src/breakpoint_database.cpp:98-116 | after any additions, switches and deletions, reads hit the database as they would with everything that was turned away, if and only if each of these passes that look-up |
| Breakpoints.SuppressorCovers | gba_debugger/src/breakpoint_database.cpp:28-33 | as long as a breakpoint that suppresses another is switched on, all reads of the other are covered |
| Breakpoints.SwitchedOffIsLost | gba_debugger/src/breakpoint_database.cpp:98-116 | a breakpoint added again after it was switched off is turned away, and all its reads are lost |
| RegisterList.ReadJoined | gba_debugger/src/disassembler.cpp:42-50 | reading a printed list gives back its items |
| RegisterList.ItemsDenote | gba_debugger/src/disassembler.cpp:55-65 | the items name register r if and only if bit r of the mask is set |
| RegisterList.ItemsAreRuns | gba_debugger/src/disassembler.cpp:55-65 | the items ascend, and none can be made longer |
| RegisterList.GenerateRegisterList | gba_debugger/src/disassembler.cpp:40-69 | the text is the items with single commas between them and none at the end |
| RegisterList.PrintedListDenotesMask | gba_debugger/src/disassembler.cpp:40-69 | reading the printed list back names exactly the set bits below reg_count |
| RegisterList.PrintedListIsMask | gba_debugger/src/disassembler.cpp:40-69 | in numbers: the powers of two of the registers read back add up to the mask modulo 2 to the reg_count |
| RegisterList.BitInNumbers | gba_debugger/src/disassembler.cpp:56 | bit i is set if and only if the word divided by 2 to the i is odd |
| RegisterList.NamesAreNumbers | gba_debugger/src/disassembler.cpp:26-29 | registers 0 to 12 are named by their number, the others sp, lr, pc, cpsr and spsr |
| RegisterList.PrintedExample | gba_debugger/src/disassembler.cpp:40-69 | the mask 0xf3 of 8 registers is printed as r0,r1,r4-r7 |
| RegisterList.PushPop | gba_debugger/src/disassembler.cpp:552-564 | reading the list names the low registers of the mask, and lr of a push or pc of a pop if and only if bit 8 is set |

## Left out

- The emulator engine apart from the scheduler (processor, picture and sound units, memory bus, cartridge), and the panels of the debugger: their behaviour is tables of registers and effects on other parts.
- Scheduler.Scheduler.AddCycles: requires a pending event, as the source asserts, and callbacks for which the loop ends, as it has no other way out; callbacks are functions of the machine and the scheduler's state that schedule and remove events but do not advance time themselves. The 64-bit clock and handle counter do not wrap around.
- Scheduler.PopHeap: stands, with Arrange, for the heap functions of the C++ library, whose promise is in the contract; in what order events of equal time fire is left open. The registry of event names and serialization are not modelled.
- RectPacker.Context.PackRects: the two arrangements that sorting arrives at are parameters, any that the comparison functions allow; the sorting algorithm is not part of this model. Coordinates are 16 bits wide, not those of large rectangles, and the waste does not overflow its integer type.
- TextEdit.TextEditState.UndoEdit: where a block move would pass the end of the buffer, it has no defined effect; the model stops there and says so in the outcome.
- TextEdit.TextEditState.RedoEdit: the same for a record that reaches outside the text or the buffer.
- TextEdit.TextEditState.Paste: insertions into the host's text always succeed; the preferred column of the cursor is left out, as is every key that only moves the cursor, mouse input and layout.
- Subcases.ContextState.RunTest: no subcase filters, exceptions or early abort; the test body is a finite tree of subcases that is the same in every run.
- Glob.Wildcmp: lower case is that of the letters A to Z, without locales; texts hold no null character.
- Colormap.ColormapData.Append: names are compared as such, not by their hash, and are kept as a list in place of the text buffer; sampling a table with a floating-point position is not modelled.
- Breakpoints.WritesAreKept: breakpoints added are enabled and stay so; switching and deleting is modelled for reads. Execution breakpoints are left out.
- RegisterList.PushPop: gives mnemonic and list separately; the other formatters of the disassembler only fill in patterns.
