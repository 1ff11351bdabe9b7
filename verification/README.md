# The editing core of medit

A model of the data structures and text transformations that medit's editor keeps under its widgets, with proofs of what
they promise. One file models one part of the program:

| file | models | what is proved |
|---|---|---|
| Folds.dfy | the fold tree | a tree of line ranges in parent, sibling and child pointers with one "invisible" flag per line: adding, removing, collapsing, expanding and traversing folds keep the tree well-formed and the flags exact |
| LineBuffer.dfy | the lines of a text and the marks on them | the B-tree with cached line and mark counts, including its splitting, borrowing and merging, agrees with a plain list of lines; marks are conserved |
| Indenter.dfy | indentation | exact columns and tab stops, shortest whitespace, the Tab key, shifting lines there and back |
| Array.dfy | the owning array template | it is a plain list; copies and takeovers balance frees; sorted insertion |
| Bookmarks.dfy | bookmarks | over all toggles, edits and looks, a look between edits finds the list in order, one bookmark a line, numbers different; exactly when the looks in the middle of an edit do |
| Config.dfy | layered settings of documents | the source that counts most wins; working a document's settings out again forgets history and is idempotent; global values reach every document |
| LineEnds.dfy | loading and saving with line ends | exactly when saving gives back what was loaded |
| Untitled.dfy | numbers of untitled documents | the least free number, each used once |
| Quit.dfy | leaving the program | across nested dialogs and signals: one quit body, no inhibitor left over, which session is written, when a dialog waits without an inhibitor |
| Filters.dfy | filters that choose documents for settings | exactly when a filter survives writing and reading |
| ConfigStrings.dfy | settings written in a file | the scanner, settings joined by semicolons, when the scan leaves the text |

`Valid()` is the invariant of a class. Loops of the source that fill a list front to back and reverse it append here. A `Fold` is a node of the tree; `nodes` is the set of all of them. `hidden[l]` is
the invisible tag of line l. `root.content` is the list of the lines in a line buffer. In the array, `copied`, `taken`
and `freed` are the multisets of elements that were copied in, taken over and freed so far. In Quit.dfy, `State` is all
there is to the program for this purpose; the functions on it say what the methods of `App` do, and `again` and
`bodyAsks` record the two ways in which a dialog can come to wait without an inhibitor.

## Model
| member | source | states |
|---|---|---|
| Folds.FoldTree.InsertFold | src/mooedit/moofold.cpp:349-497 | As written: only a range that crosses a fold is rejected, and then nothing changes; otherwise exactly one fold is new, and the tree is well-formed (pointers, counters, sorted disjoint sibling lists, nesting) if and only if the range neither lies between two neighbours nor reaches a second fold of its list; if it does, every pointer and counter that the code leaves behind is stated: between two neighbours only the earlier one does not point to the new fold, and of several folds in the range only the first becomes its child |
| Folds.FoldTree.InsertMeant | src/mooedit/moofold.cpp:349-497 | The intended insertion, with the missing pointer set and all folds in the range taken in, always leaves a well-formed tree and is rejected exactly when the range crosses a fold |
| Folds.FoldTree.AddMended | src/mooedit/moofold.cpp:458-467 | One assignment is missing between two neighbours: with it, only a range that reaches a second fold leaves a broken tree |
| Folds.FoldTree.Add | src/mooedit/moofold.cpp:486-498 | The same condition for the public operation; collapsed folds and exact visibility are unaffected |
| Folds.MiddleInsertBreaks | src/mooedit/moofold.cpp:458-467 | Adding 2-3 between 0-1 and 4-5 leaves a tree that is not well-formed |
| Folds.WideInsertBreaks | src/mooedit/moofold.cpp:390-437 | Adding 0-6 around 1-2 and 4-5 leaves a tree that is not well-formed |
| Folds.FoldTree.Remove | src/mooedit/moofold.cpp:533-585 | Children take the fold's place: the pre-order of the other folds is unchanged, the tree stays well-formed, and visibility is exact again if and only if the fold was not collapsed or no collapsed fold lies around it |
| Folds.FoldTree.ExpandCheckVisible | src/mooedit/moofold.cpp:588-651 | The recursion over gaps, heads and tails of the children shows exactly the lines of the fold that no collapsed fold within it hides |
| Folds.FoldTree.Expand | src/mooedit/moofold.cpp:653-664 | A collapsed fold's lines are shown, the first one too, but for those that a collapsed fold inside it hides; visibility stays exact if and only if the fold was not collapsed or no collapsed fold lies around it; every hidden line still has a collapsed fold that hides it |
| Folds.ExpandInsideShows | src/mooedit/moofold.cpp:653-664 | Expanding 1-2 inside the collapsed fold 0-3 shows a line that the outer fold should hide |
| Folds.FoldTree.Collapse | src/mooedit/moofold.cpp:725-746 | Hides exactly the lines behind the fold's first one, once the tag is installed; exact visibility is kept |
| Folds.FoldTree.CollapseAll | src/mooedit/moofold.cpp:748-769 | Exactly the topmost folds become collapsed, and the lines behind the first one of each that was not are hidden; it reports whether any of them was not before |
| Folds.FoldTree.ExpandAll | src/mooedit/moofold.cpp:687-723 | Although tags are only cleared from the first collapsed fold on, no line stays hidden, in every tree where each hidden line had a collapsed fold to hide it |
| Folds.FoldTree.MarkDeleted | src/mooedit/moofold.cpp:771-809 | Whatever was hidden before, exactly the lines of the surviving collapsed folds are hidden afterwards and their flags are unchanged |
| Folds.FoldTree.Toggle | src/mooedit/moofold.cpp:811-845 | All folds become expanded if one was collapsed, otherwise the topmost ones become collapsed; visibility is exact afterwards, even where it was not before |
| Folds.FoldTree.InstallTag | src/mooedit/mootextbuffer.cpp:2179-2182 | Creating the tag changes no line; visibility is exact from then on if and only if no fold is collapsed yet |
| Folds.FoldTree.ExpandJustified | src/mooedit/moofold.cpp:653-664 | Expanding keeps the one-sided fact that whatever is hidden has a collapsed fold that hides it |
| Folds.FoldTree.Visit | src/mooedit/moofold.cpp:666-685 | The traversal over parent and next pointers ends and visits the folds in pre-order |
| Folds.FoldTree.PreOrderAll | src/mooedit/moofold.cpp:666-685 | Pre-order has every fold of the tree exactly once, by strictly increasing first lines |
| Folds.OneOrder | src/mooedit/moofold.cpp:666-685 | That order is the only one: two lists of the same folds by increasing first lines are equal |
| LineBuffers.LineBuffer.GetLine | src/mooedit/mootextbtree.cpp:71-92 | Walking down by cached counts finds the line with the given number |
| LineBuffers.LineBuffer.LineIndex | src/mooedit/moolinebuffer.cpp:291-335 | Walking up and adding what lies to the left gives the one number under which the line is found: the inverse of lookup |
| LineBuffers.LineBuffer.GetMarksInRange | src/mooedit/moolinebuffer.cpp:202-281 | The pruned query returns exactly the marks of the lines from the first to the last one, both included, in line order and then in order within a line, and caches the right line number in each; a negative or too large last line stands for the end of the text, and a query for one line gives that line's marks |
| LineBuffers.LineBuffer.NodeGetMarks | src/mooedit/moolinebuffer.cpp:202-260 | The same for the recursion below one node, which skips subtrees out of range or without marks |
| LineBuffers.RangeIs | src/mooedit/moolinebuffer.cpp:202-281 | The condition by which the scan picks lines is the range from the first to the last one |
| LineBuffers.LineBuffer.MarkLineNo | src/mooedit/moolinemark.cpp:400-414 | The cached number of a mark is used only while it is right |
| LineBuffers.LineBuffer.UpdateNMarks | src/mooedit/mootextbtree.cpp:507-523 | One walk from a line to the root makes every cached mark count right again |
| LineBuffers.LineBuffer.AddMark | src/mooedit/moolinebuffer.cpp:112-136 | The mark goes behind the others on that line and points back to it; all cached counts are right; out of range nothing happens |
| LineBuffers.LineBuffer.RemoveMark | src/mooedit/moolinebuffer.cpp:139-188 | Exactly that mark goes; the order of the others stays |
| LineBuffers.LineBuffer.MoveMark | src/mooedit/moolinebuffer.cpp:191-199 | Exactly that mark goes from its line to the end of the other one |
| LineBuffers.LineBuffer.Insert | src/mooedit/mootextbtree.cpp:225-313 | With nodes split on the way up, the tree stays balanced with every node at least half full, and the new line has the given number |
| LineBuffers.LineBuffer.SplitUp | src/mooedit/mootextbtree.cpp:225-313 | Splitting full nodes from the bottom up, perhaps under a new root, keeps the list of lines and all counts |
| LineBuffers.LineBuffer.Delete | src/mooedit/mootextbtree.cpp:343-470 | Exactly that line goes, with nodes refilled or merged on the way up; its marks are detached and returned |
| LineBuffers.LineBuffer.MergeUp | src/mooedit/mootextbtree.cpp:368-466 | Borrowing from or merging with a neighbour, up to the root, makes every node at least half full again and keeps the list of lines and all counts |
| LineBuffers.LineBuffer.FillUp | src/mooedit/mootextbtree.cpp:395-459 | The step at one node, for all four cases of neighbours |
| LineBuffers.LineBuffer.Sizes | src/mooedit/mootextbtree.h:24-26 | Between operations every node has fewer than 16 entries, and every node but the root 8 or more |
| LineBuffers.LineBuffer.Depth | src/mooedit/mootextbtree.h:24-27 | So a tree of height h has 8 to the power of h lines or more |
| LineBuffers.LineBuffer.DeleteLines | src/mooedit/moolinebuffer.cpp:41-90 | Exactly the given lines go. The marks on the last of them end up behind those on the line to move to, or are deleted with the rest; every other mark stays on its line; no mark is lost |
| LineBuffers.LineBuffer.SplitLine | src/mooedit/moolinebuffer.cpp:31-38 | The new lines have no marks and come right behind the given one; all others stay in order |
| Indenters.Indenter.MakeSpace | src/mooedit/mooindenter.cpp:78-132 | All branches give the filling that the next two rows are about |
| Indenters.FillingColumn | src/mooedit/mooindenter.cpp:78-132 | The filling leads from any column exactly `len` columns on, for every tab width, with and without tabs |
| Indenters.FillingShortest | src/mooedit/mooindenter.cpp:78-132 | With tabs, no other string of tabs and spaces with the same effect is shorter |
| Indenters.PlainColumn | src/mooedit/mooindenter.cpp:293-343 | Every character but a tab is one column wide |
| Indenters.Indenter.LineOffset | src/mooedit/mooindenter.cpp:139-173 | How wide the indentation is, where it ends, and whether text follows |
| Indenters.Indenter.VisualOffset | src/mooedit/mooindenter.cpp:293-343 | The column of a place and the longest run of whitespace before it, measured in columns |
| Indenters.Indenter.Tab | src/mooedit/mooindenter.cpp:346-376 | Only the whitespace just before the cursor changes, and the cursor comes to the least multiple of the indent width beyond its column |
| Indenters.Indenter.ShiftLineForward | src/mooedit/mooindenter.cpp:379-404 | A line of spaces and tabs stays; any other gets wider by exactly one step, with the same text behind its indentation, and what is behind the cursor stays behind it |
| Indenters.Indenter.ShiftLineBackward | src/mooedit/mooindenter.cpp:407-456 | Whitespace goes until it counts one step, a tab always counting a full tab width, and the excess comes back |
| Indenters.EatenIs | src/mooedit/mooindenter.cpp:416-441 | What goes is the shortest whitespace at the beginning that counts a step, or all of it |
| Indenters.Indenter.ShiftLines | src/mooedit/mooindenter.cpp:458-478 | Exactly the lines in the range are shifted, each once (forward by exactly one step), and the cursor moves with its line |
| Indenters.Indenter.ForwardAndBack | src/mooedit/mooindenter.cpp:379-456 | Forward adds one step exactly and keeps the text. Back again restores the width if and only if tabs are off, or the step is a whole number of tabs, or the shifted line has no more tabs than a step takes |
| Indenters.Indenter.ShiftThereAndBack | src/mooedit/mooindenter.cpp:458-478 | The same for the two methods on a range of lines |
| Indenters.Indenter.TwelveLost | src/mooedit/mooindenter.cpp:407-456 | With tabs of 8 and steps of 4, an indentation of 12 does not survive forward and back |
| Indenters.TabsForCeiling | src/mooedit/mooindenter.cpp:416-441 | How many leading tabs the backward loop eats: the step divided by the tab width, rounded up |
| Indenters.Indenter.PrevStop | src/mooedit/mooindenter.cpp:258-283 | The loop upwards finds what the next row is about |
| Indenters.StopAboveIs | src/mooedit/mooindenter.cpp:258-283 | The stop is the indentation of the nearest line with text that is indented no further, or 0 |
| Arrays.Array.Grow | src/moocpp/array.h:195-205 | New places are empty, old ones stay; the capacity never exceeds 6/5 of the largest size there has been |
| Arrays.Array.Append | src/moocpp/array.h:89-94 | One copy goes to the end |
| Arrays.Array.Take | src/moocpp/array.h:96-101 | The element itself goes to the end |
| Arrays.Array.AppendArray | src/moocpp/array.h:103-114 | Copies of all elements of another array go to the end, which itself stays as it is; appended to itself, an array leaves its bounds if and only if it is not empty |
| Arrays.Array.Remove | src/moocpp/array.h:116-130 | The first occurrence goes and is freed once; without one nothing changes |
| Arrays.Array.Clear | src/moocpp/array.h:132-148 | Every element is freed once |
| Arrays.Array.InsertSorted | src/moocpp/array.h:166-178 | A sorted array stays sorted and the element comes behind its equals; without any assumption on the comparison, it goes in front of the first greater element |
| Arrays.InsertedInOrder | src/moocpp/array.h:166-178 | Why: for a transitive comparison, all elements behind the first greater one are greater |
| Arrays.Array.Copy | src/moocpp/array.h:50-50 | A copy has the same elements and a buffer of its own |
| Arrays.Array.Move | src/moocpp/array.h:52-58 | The new array has the elements, the buffer and the balance; the old one is empty |
| Arrays.Array.Assign | src/moocpp/array.h:60-68 | The old elements are freed once, the new ones copied once; assigning to itself does nothing |
| Arrays.Array.MoveAssign | src/moocpp/array.h:69-83 | The old elements are freed once, the others change owner; assigning to itself does nothing |
| Bookmarks.Bookmarks.Update | src/mooedit/mooeditbookmark.cpp:107-148 | The repair keeps exactly the bookmarks that are not deleted and have none behind them on their line, in strict order of lines; the others are disconnected and deleted |
| Bookmarks.KeepsFirst | src/mooedit/mooeditbookmark.cpp:107-148 | Why: in the reversed and stably sorted list, the first of each line is the last one of the old list |
| Bookmarks.Sorted | src/mooedit/mooeditbookmark.cpp:126-126 | The sort is stable: bookmarks on one line stay in the order they were in |
| Bookmarks.Bookmarks.ListBookmarks | src/mooedit/mooeditbookmark.cpp:151-169 | After any run, the list is strictly increasing by line with none deleted, and has what the repair keeps; in the middle of an edit that is so if a repair is pending, and otherwise exactly if the list is like that anyway; without a pending repair nothing changes, and afterwards none is pending |
| Bookmarks.Bookmarks.GetInRange | src/mooedit/mooeditbookmark.cpp:347-378 | The query that stops early gives exactly the bookmarks in the range, in order |
| Bookmarks.Bookmarks.Add | src/mooedit/mooeditbookmark.cpp:256-299 | The invariant holds with and without a pending repair; the number is the least free digit, or 0, and is found unless a bookmark has a number of ten or more; numbers stay different if and only if it is such a number or a free digit |
| Bookmarks.Bookmarks.GetUnused | src/mooedit/mooeditbookmark.cpp:233-253 | The least of 1 to 9 that no bookmark has, else 0; the search leaves its array of ten if and only if some bookmark has a larger number |
| Bookmarks.Bookmarks.RemoveBookmark | src/mooedit/mooeditbookmark.cpp:216-230 | Exactly that bookmark goes |
| Bookmarks.Bookmarks.Toggle | src/mooedit/mooeditbookmark.cpp:172-187 | A line with a bookmark loses one and no other goes; a line without gets one, with the least free number, and of the others those stay that a repair keeps |
| Bookmarks.Bookmarks.Edit | src/mooedit/mooeditbookmark.cpp:316-344 | For every edit that keeps marks in order but for those reported as moved or deleted, with and without a look after each report that changes something, the invariant survives all reports; the looks are all right if and only if a repair was pending, no bookmark is deleted, or just one is and the others are strictly in order on their new lines; a look in between repairs what is pending, and keeps what a repair of the whole edit would keep |
| Bookmarks.Bookmarks.TellDeleted | src/mooedit/mooeditbookmark.cpp:331-344 | The reports about deleted bookmarks: the same condition for their looks, and only a look with a repair pending drops others than those reported |
| Bookmarks.KeepsSame | src/mooedit/mooeditbookmark.cpp:107-148 | A repair in the middle of an edit keeps exactly what one at its end would, whichever deleted bookmarks have been reported so far |
| Bookmarks.DeletedSeen | src/mooedit/mooeditbookmark.cpp:331-344 | Bookmarks on lines 0 and 1, both deleted: the look after the first report finds the other one, deleted |
| Bookmarks.LineSeenTwice | src/mooedit/mooeditbookmark.cpp:331-344 | Bookmarks on lines 0, 1 and 2, the second deleted and the third brought to line 0: the look after the first report finds two bookmarks on one line |
| Bookmarks.Bookmarks.DeleteAll | src/mooedit/mooeditbookmark.cpp:381-407 | No bookmark is left |
| Configs.Config.SetValue | src/mooedit/mooeditconfig.cpp:413-437 | The value changes unless one from a source that counts more is there, and a notice goes out exactly when something changed |
| Configs.Ranks | src/mooedit/mooedit-enums.h:8-14 | Defaults give way to every other value, and the user's values to none |
| Configs.LastWins | src/mooedit/mooeditconfig.cpp:413-437 | Any run of assignments leaves the last value from the source that counts most among all assigned and the one there before |
| Configs.Commute | src/mooedit/mooeditconfig.cpp:413-437 | Assignments from different sources, or to different settings, can change places in any run |
| Configs.Config.UnsetBySource | src/mooedit/mooeditconfig.cpp:545-574 | Everything from a source on becomes the global value, or the default in the global settings themselves; the rest stays |
| Configs.Undone | src/mooedit/mooeditconfig.cpp:545-574 | That undoes any run of assignments from there on, whatever they were |
| Configs.Settings.SetGlobal | src/mooedit/mooeditconfig.cpp:214-256 | Changed global values reach exactly the documents where no value that counts more hides them, and nothing is out of step afterwards |
| Configs.Settings.SetFor | src/mooedit/mooeditconfig.cpp:413-437 | A document stays in step with the global values if and only if the assignment has no effect, counts more than the global value, or equals it |
| Configs.Settings.Install | src/mooedit/mooeditconfig.cpp:273-306 | A new setting has its default in every document |
| Configs.Settings.Recheck | src/mooedit/mooedit.cpp:1372-1409 | The steps in order come to what the next rows are about; a nested call does nothing |
| Configs.OneRun | src/mooedit/mooedit.cpp:1372-1409 | The result is one run of assignments over the user's and the global values, as resetting the layer of the language in the middle changes nothing |
| Configs.Resolved | src/mooedit/mooedit.cpp:1372-1409 | Each setting is the user's, else the last of the mode lines, else of file name and filters, else of the language, else global |
| Configs.Precedence | src/mooedit/mooedit.cpp:1372-1409 | In terms of the inputs alone: what the user has set stays; anything else is the last value of the mode lines, or if those do not assign it of the name and the filters, else of the language, else the default |
| Configs.Ranked | src/mooedit/mooedit.cpp:1372-1409 | The same when global values come from any source |
| Configs.LanguageNamed | src/mooedit/mooedit.cpp:1317-1343 | The filters are looked at for the user's language, or that of the last mode line that names one, or that of the name |
| Configs.Forgets | src/mooedit/mooedit.cpp:1372-1409 | Two documents with the same values of the user's and the same inputs end up with the same settings, whatever they had before |
| Configs.Idempotent | src/mooedit/mooedit.cpp:1372-1409 | Doing it twice is doing it once |
| Configs.LanguageStays | src/mooedit/mooedit.cpp:1347-1353 | The settings of a language are those of the language the document ends up with |
| LineEnds.Document.LoadText | src/mooedit/mooedit-fileops.cpp:532-609 | The one pass finds a mix exactly if two different line ends occur, else the only kind; every line end but U+2029 becomes a line feed |
| LineEnds.LoadedText | src/mooedit/mooedit-fileops.cpp:532-609 | Character by character: each line end, a carriage return with a line feed being one, becomes a line feed, and everything else stays, U+2029 too |
| LineEnds.ReadLine | src/mooutils/mooutils-misc.cpp:1769-1822 | Line by line, the text is cut into lines and their ends, the longest end first |
| LineEnds.Parts | src/mooutils/mooutils-misc.cpp:1769-1822 | Cutting loses nothing: the lines with their ends are the text |
| LineEnds.SplitJoin | src/mooutils/mooutils-misc.cpp:1769-1822 | The lines of a text are the only ones it can be made of |
| LineEnds.Document.GetContents | src/mooedit/mooedit-fileops.cpp:646-708 | The loop over lines gives all lines with one kind of end |
| LineEnds.SavedText | src/mooedit/mooedit-fileops.cpp:646-708 | Character by character: each line end and each U+2029 becomes the document's kind of line end, a line feed if it has none |
| LineEnds.MixedSaved | src/mooedit/mooedit-fileops.cpp:532-708 | A text with two kinds of line ends is saved with line feeds |
| LineEnds.SavedLines | src/mooedit/mooedit-fileops.cpp:646-708 | What was loaded is saved with the same lines, each end replaced by the one kind |
| LineEnds.RoundTrip | src/mooedit/mooedit-fileops.cpp:532-708 | Saving gives back what was loaded if and only if the text has no U+2029 and no two kinds of line ends |
| LineEnds.ParagraphLost | src/mooedit/mooedit-fileops.cpp:646-676 | A text that is one U+2029 is not saved as it was |
| LineEnds.Reloaded | src/mooedit/mooedit-fileops.cpp:532-708 | Loading what was saved gives the same buffer, with a line feed for each U+2029, and the kind it was saved with |
| Untitleds.Untitled.Add | src/mooedit/mooedit-fileops.cpp:1017-1037 | The document's number, or the least free one, at most one more than there are untitled documents; different documents keep different numbers |
| Untitleds.Untitled.Remove | src/mooedit/mooedit-fileops.cpp:1004-1014 | Exactly that document gives its number back |
| Untitleds.AsMany | src/mooedit/mooedit-fileops.cpp:1004-1037 | The list and the table have the same numbers, each once |
| Quits.WholeRun | src/mooapp/mooapp.cpp:408-439 | Over all runs, with events (signals too) nested in dialogs to any depth: the quit body has run at most once; unless a signal ended the process, no inhibitor is held and no flag set between events; a dialog has waited without an inhibitor while a query was pending exactly if a query came while the program was quitting, or the quit body began in answer to one with a window it would ask about |
| Quits.QuitKept | src/mooapp/mooapp.cpp:1264-1279 | It quits, with all windows closed that were open and no inhibitor left, or is cancelled; what is written then is the session of the windows open at its beginning, or the one taken when the last window closed |
| Quits.TryQuitKept | src/mooapp/mooapp.cpp:1077-1101 | The session is taken once, before the first window closes, and nothing that happens in the dialogs takes it again or runs the quit body, unless a signal ends the process |
| Quits.BodyKept | src/mooapp/mooapp.cpp:408-439 | The session known at its beginning is written, unless the process ends in one of its dialogs; then nothing is |
| Quits.BodyEnds | src/mooapp/mooapp.cpp:962-984 | The process ends in the quit body exactly if a signal is among the events that come in its dialogs, nested to any depth, and it does not itself run for a signal |
| Quits.BodyLoses | src/mooapp/mooapp.cpp:408-439 | So, in terms of the events that come, exactly when the session that was taken is not written |
| Quits.RemoveKept | src/mooedit/mooeditor.cpp:1475-1499 | Exactly that window closes; closing the last one quits, and the session that is written has that window |
| Quits.CloseKept | src/mooedit/mooeditor.cpp:1347-1472 | A busy document forbids closing, unsaved ones make the program ask; if it is not forbidden or cancelled the window is closed, also when that happens during the dialog |
| Quits.OpenedCloses | src/mooedit/mooeditor.cpp:1347-1472 | A window that has just been opened closes without a question, and that leaves everything as it was |
| Quits.CloseListKept | src/mooedit/mooeditor.cpp:1706-1727 | If nothing is forbidden or cancelled, all windows of the list are closed; whatever happens in the dialogs, flags, session and balance of inhibitors are kept |
| Quits.QueryKept | src/mooapp/mooapp.cpp:1023-1042 | Whatever happens meanwhile, no inhibitor is held when the question is answered |
| Quits.AskedAgain | src/mooapp/mooapp.cpp:1023-1042 | If the next thing that happens while the program asks is another query, a dialog waits without an inhibitor |
| Quits.NewWindow | src/mooapp/mooapp.cpp:408-425 | If a window with unsaved documents is opened while the program asks, and it may quit, it asks about that one without an inhibitor |
| Quits.ExposedRuns | src/mooapp/mooapp.cpp:1023-1042 | Both happen in runs from the start |
| Quits.SignalKept | src/mooapp/mooapp.cpp:962-984 | The process ends; the session of the windows open when the signal came is written if the program is running, also while it tries to quit, and nothing otherwise |
| Quits.SignalInBody | src/mooapp/mooapp.cpp:962-984 | A signal while the quit body asks about a window leaves the session unwritten |
| Quits.LostRun | src/mooapp/mooapp.cpp:962-984 | That happens in a run from the start |
| Quits.App.Run | src/mooapp/mooapp.cpp:1023-1042 | The program's methods, nested in each other through dialogs, do exactly the steps the rows above are about |
| Quits.App.DoQuit | src/mooapp/mooapp.cpp:408-439 | The quit body is the step of that name |
| Quits.App.QueryEnd | src/mooapp/mooapp.cpp:1023-1042 | Answering the session manager is the step of that name |
| Quits.App.CheckSignal | src/mooapp/mooapp.cpp:962-984 | Handling a signal is the step of that name |
| Filters.RoundTrip | src/mooedit/mooeditfiltersettings.cpp:69-268 | A filter that can be read is read again from its own text if and only if its type is written in front or the text shows it: not empty, and not beginning like a type |
| Filters.ReadIs | src/mooedit/mooeditfiltersettings.cpp:120-268 | What can be read: items without delimiters or spaces around them, language ids that are their own ids, patterns by validity |
| Filters.ItemsJoined | src/mooedit/mooeditfiltersettings.cpp:243-267 | A list of items survives joining by semicolons and splitting at delimiters |
| Filters.ItemsSpread | src/mooedit/mooeditfiltersettings.cpp:168-190 | Items are read whatever spaces, tabs, line ends, semicolons and commas lie before, between and behind them |
| Filters.ItemIs | src/mooedit/mooeditfiltersettings.cpp:168-190 | An item is any text without those characters that has no form feed at its ends |
| Filters.IdIs | src/mooedit/moolang.cpp:114-121 | The id of a language is its name in lower case |
| Filters.NewFull | src/mooedit/mooeditfiltersettings.cpp:120-143 | Reading a filter, with both defaults for a text without a type |
| Filters.TypedText | src/mooedit/mooeditfiltersettings.cpp:120-143 | What langs:, globs: and regex: in front of a text mean, and a text without them |
| Filters.GetString | src/mooedit/mooeditfiltersettings.cpp:69-118 | Writing a filter |
| Filters.TypeWritten | src/mooedit/mooeditfiltersettings.cpp:69-118 | What is written in front of a filter, in settings and in actions |
| Filters.GetSetting | src/mooedit/mooeditfiltersettings.cpp:537-557 | The texts of all settings that match, in order, joined by semicolons |
| Filters.MatchingJoin | src/mooedit/mooeditfiltersettings.cpp:537-557 | Each setting adds its text exactly if its filter matches, in the order of the store |
| Filters.MatchingSettings | src/mooedit/mooeditfiltersettings.cpp:537-557 | That text assigns what its parts assign, in order, if and only if none that is blank or ends in a separator comes before others with a value behind their first mark |
| Filters.EmptyRule | src/mooedit/mooeditfiltersettings.cpp:537-557 | A rule without settings spoils those of the next rule that matches |
| Filters.EmptyPattern | src/mooedit/mooeditfiltersettings.cpp:69-143 | The filter regex: is written as an empty text, which is no filter |
| ConfigStrings.Parse | src/mooedit/mooeditconfig.cpp:705-800 | The scan by index gives the settings of the text in order and ends as the following rows say |
| ConfigStrings.Reads | src/mooedit/mooeditconfig.cpp:671-800 | A name and a value, with spaces and tabs anywhere around them and a semicolon, a comma or the end of the text behind, in either form, read as that setting, and then the rest is read |
| ConfigStrings.Unreadable | src/mooedit/mooeditconfig.cpp:705-800 | A word alone, a mark without a name, a colon without a value and a value without its closing quote cannot be read |
| ConfigStrings.Joined | src/mooedit/mooeditconfig.cpp:683-800 | A text that can be read, with settings in either form or none, joined to any other by a semicolon makes its own assignments in order and then those of the other; if it is blank or a separator follows its last setting, those of the other text read with a semicolon in front |
| ConfigStrings.JoinedExactly | src/mooedit/mooeditconfig.cpp:683-800 | Joining is harmless if and only if the first text is neither blank nor ends in a separator, or no value can be read behind the first mark of the second |
| ConfigStrings.LooseEnds | src/mooedit/mooeditconfig.cpp:683-800 | The condition on the first text by its characters: blank, or ending in a separator that is not the closing quote of its last setting |
| ConfigStrings.JoinedAll | src/mooedit/mooeditconfig.cpp:683-800 | Any number of texts joined make the same assignments in the same order as reading each in turn if and only if none that is blank or ends in a separator comes before others with a value behind their first mark |
| ConfigStrings.EmptySpoils | src/mooedit/mooeditconfig.cpp:683-800 | An empty text joined to b:2 does not assign b; an empty text joined to an empty one is harmless |
| ConfigStrings.StaysInside | src/mooedit/mooeditconfig.cpp:752-785 | Reading leaves the text if and only if the setting it ends at is in assign form and ends right behind its opening quote |
| ConfigStrings.OverrunIs | src/mooedit/mooeditconfig.cpp:752-785 | The same for one setting, in terms of the characters of the text |
| ConfigStrings.Leaves | src/mooedit/mooeditconfig.cpp:752-785 | A shortest text that the scan leaves |

## Findings
Where the code falls short of what it is for, the input and the exact condition:

| where | input | exactly when |
|---|---|---|
| Adding a fold between two others never links the earlier one to it | `MiddleInsertBreaks` | the range lies between two neighbours of one list (`MiddleGap`) |
| Adding a fold around others takes in only the first of them | `WideInsertBreaks` | the range starts before a fold of the innermost list and reaches the next one (`ReachesTwo`) |
| Expanding or removing a fold shows lines that another fold hides | `ExpandInsideShows` | the fold was collapsed and a collapsed fold lies around it |
| Shifting forward and back changes the indentation | `TwelveLost` | tabs are on, the step is no whole number of tabs, and the shifted line has more tabs than a step takes |
| Joined settings are not read as each in turn | `ConfigStrings.EmptySpoils`, `Filters.EmptyRule` | a text that is blank or ends in a separator (not as a closing quote) comes before others with a value behind their first mark |
| The scan for a closing quote starts beyond the end of the text | `Leaves` | reading reaches a setting in assign form that ends right behind its opening quote |
| A text is not saved as it was loaded | `ParagraphLost` | it has a U+2029 or two kinds of line ends |
| A filter for settings is not read back from its own text, and is lost if that is empty | `Filters.EmptyPattern` | it is a pattern, valid or not, and its text is empty or begins like a type |
| A dialog waits without an inhibitor while the session manager's query is pending | `Quits.ExposedRuns` | a query comes while the program is quitting, or the quit body begins in answer to a query with a window it asks about |
| A session that was taken is not written | `Quits.LostRun` | a signal comes in one of the quit body's dialogs, and none is being handled (`Quits.BodyLoses`) |
| A look between the reports of one edit finds a bookmark that is deleted, or two on one line | `DeletedSeen`, `LineSeenTwice` | the document is shown, no repair is pending, and several bookmarks are deleted, or one is and the others are not strictly in order on their new lines (`Bookmarks.Edit`) |

Contracts that could fail in the same way, but that no caller in the program breaks: folds collapsed before the tag
exists hide nothing (`InstallTag`; the tag is created before the first fold is added), values assigned from a source
that counts no more than the global one put a document out of step (`SetFor`; global values are only set by default),
a number given to a new bookmark may be in use or no digit (`Bookmarks.Add`; only 0 is given), an array must not be
appended to itself (`AppendArray`), and a filter of an action is not read back from its own text if it is an invalid
pattern, or a list of globs that is empty or begins like a type (`Filters.RoundTrip`; only filters for settings are
written).

## Left out
- Positions of folds under edits of the text: a fold's lines are constants here, so moving its marks, and folds whose marks have met on one line, are not part of this model.
- The tag table of the text buffer: a flag says whether the invisible tag exists.
- Widths of machine integers: counters, columns and line numbers are unbounded; line stamps and `guint` columns do not wrap around.
- LineBuffers.LineBuffer.Insert: the tree's depth counter, which nothing reads, is not kept.
- LineBuffers.LineBuffer.Delete: the variant without lists for the deleted marks, which only differs in leaving them unlisted, is not modelled.
- Arrays.Array.Grow: growth by the factor 1.2 is computed in whole numbers as 12/10; what the program allocates but has not filled yet is modelled as empty.
- Array.sort and Array.foreach, which are one library call and one loop.
- Characters are not split into bytes: strings are sequences of characters without NUL.
- The insertion mark is assumed to stay behind text that is inserted at it, as the toolkit's does.
- `moo_indenter_character` and `moo_iter_get_blank_offset`: the first is `MakeSpace` for the width of the line above, the second the loop of `LineOffset` stopped at a place.
- Bookmarks.Bookmarks.GetAtLine: which of several bookmarks on one line is found before a repair is left open.
- Bookmarks.Bookmarks.Edit: either every report that changes the list is followed by a look, as when the window shows the document, or none is; other handlers of bookmark changes, of which the program has none, are not part of this model.
- Configs.Settings.Recheck: mode lines, filters and languages are given by what they assign, as functions of the language where they depend on it; applying the result to views is not part of this model.
- LineEnds.Document.LoadText: U+2029 is one character here and three bytes in the program; files are read and converted elsewhere.
- LineEnds.Document.GetContents: the toolkit's lines are assumed to end where the program's own line reader ends them.
- Copying or freeing an element of an array does not call back into the array.
- Quits.QueryKept: the session manager is assumed to give a cookie that is not 0.
- Quits.DialogKept: what windows contain is only whether their documents are saved, unsaved or busy; preferences and plugins are left out, and a dialog that is still open when the events end counts as cancelled.
- Filters.RoundTrip: which patterns are valid is a parameter, as is which filters match a document.
- Commenting and uncommenting lines: two loops that insert and delete the same characters.
- Looking up, validating and converting the values of settings.
- Widgets, signals, dialogs, preferences, file access, character sets, languages, the session file.
