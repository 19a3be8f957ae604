# Conversational analysis editor — a verified model of its editing core

The editor is a full-screen terminal program for transcripts of conversations. A transcript
is a list of dialogue entries, each a speaker name and a text. The editor keeps a *display
table*: one row per wrapped line of each entry's text, recording the entry, the row's offset
in that text and the characters it shows. A cursor sits on one row, in the speaker field or
the content field, at a column of that field. Every key goes through `process_key`, which:

- counts keystrokes towards an autosave;
- dispatches on the key code;
- edits the entries, saving an undo snapshot first;
- rebuilds the display table (`reflow`);
- puts the cursor back on the row and column that show the edited place.

This project models that core of `Editor` in Dafny and proves properties of it:

- word wrapping (`wrap_text`) and the table built from it (`reflow`);
- the load-time fold of consecutive same-speaker entries;
- cursor placement (`set_cursor_for_content` and the clamp at the end of `reflow`);
- every key of `process_key`;
- insert, backspace, split, moving an entry up or down;
- the undo history.

The model has two layers:

- **Functions on values** describe what each operation does. The modules are `WordWrap`,
  `Merge`, `Display`, `Edits`, `Undo`, `Cursor`, `Operations` and `Keys`. A `View` holds the
  entries, the table, the cursor and the scroll offset. `Shown(v, cw)` is the invariant between
  two keys: the table is exactly the one `reflow` builds from the entries at content width
  `cw`, and the cursor is on a row and within its field.
- **The class `EditorState.Editor`** has the source's fields, and its methods update them in
  place, with the same loops, branches and constants. Each method is proved to compute the
  function that describes it: `ensures CurrentView() == Inserted(old(CurrentView()), cw, ch)`
  and the like. So every lemma about the functions holds of the editor. `ProcessKey` is proved
  to keep `Valid()`, which is `Shown`, a bounded non-empty history, and a keystroke counter
  below the autosave interval.

Behaviour the code has, and the model follows:

- **A trailing space after a full row is dropped.** `wrap_text` consumes a space that falls
  right after a full row even when nothing follows it. `"abcde "` at width 5 wraps to the single
  row `(0, "abcde")`, and no row shows offset 6. Typing a letter there places the cursor on the
  row, not after the space (`WordWrap.WrapDropsTrailingSpace`, `Display.ShownEnd`).
- **One undo can revert two edits.** Each edit saves the state it starts from, and `undo` pops
  the newest snapshot and restores the one below it. So after two edits, one undo returns to the
  state from before the first (`Undo.UndoSkipsOneEdit`). Right after start-up, or after an undo,
  an edit followed by an undo does restore the state exactly (`Keys.EditThenUndo`).
- **Three shortcuts can never fire.** Codes 19 (Ctrl+S), 17 (Ctrl+Q) and 28 (Ctrl+\) are below
  32, so the control-key test catches them first (`Keys.ControlShortcutsDead`).
- **Move-up and move-down split first.** On a continuation row, they split the entry at the row
  before deciding whether the move is possible. They also save a snapshot even when they refuse.
- **Backspace at the start of a continuation row does not edit.** It only moves the cursor to
  the end of the row above.
- **Right goes on; Left does not come back.** Right at the end of an entry's last row moves on
  to the next entry, but Left at column 0 of an entry's first row stays put
  (`Cursor.RightLeftAsymmetric`).

## Model

All source paths are relative to the original program's directory.

| member | source | states |
|---|---|---|
| WordWrap.MaxWidth | conversational_analysis_editor.py:138-139 | the row width is the content width capped at fifty columns |
| WordWrap.WrapFrom | conversational_analysis_editor.py:141-156 | defines the rows the loop emits from a start position: the row up to the cut, then the rows from where the loop resumes; its properties are those of WrapRows |
| WordWrap.Wrap | conversational_analysis_editor.py:132-156 | defines wrap_text at a content width; WrapText computes it, and WrapRows states what it satisfies |
| WordWrap.LastSpace | conversational_analysis_editor.py:148-149 | `rfind(" ")`: -1 or the index of a space; with LastSpaceIsLast, no space follows it |
| WordWrap.CutAt | conversational_analysis_editor.py:143-155 | each row ends past its start, at most the row width on, inside the text |
| WordWrap.ResumeAt | conversational_analysis_editor.py:150-155 | the next row starts at the cut, or one past it when the cut is a consumed space |
| WordWrap.NextRow | conversational_analysis_editor.py:144-155 | one turn of the wrapping loop appends the row at `start` and moves `start` where the loop resumes |
| WordWrap.WrapText | conversational_analysis_editor.py:132-156 | the loop returns exactly the rows `Wrap` describes |
| WordWrap.WrapRows | conversational_analysis_editor.py:132-156 | no rows iff empty text; first row at 0; every row a non-empty slice of the text at most min(width,50) wide; each next row right after the previous or past one space; the spaces put back rebuild the text, except for one dropped trailing space |
| WordWrap.WrapOffsetsIncrease | conversational_analysis_editor.py:141-156 | rows do not overlap and their offsets strictly increase |
| WordWrap.WrapShortText | conversational_analysis_editor.py:144-147 | a non-empty text that fits is one row at offset 0 |
| WordWrap.RowIsFirstOfSuffix | conversational_analysis_editor.py:143-155 | a row at offset o is also the first row of the text from o on (what a split at a row leaves) |
| WordWrap.WrapHelloThere | conversational_analysis_editor.py:132-156 | "Hello there" at width 10 wraps to (0,"Hello"), (6,"there") |
| WordWrap.WrapDropsTrailingSpace | conversational_analysis_editor.py:148-155 | "abcde " at width 5 wraps to (0,"abcde") alone, which does not rebuild the text |
| Merge.JoinTexts | conversational_analysis_editor.py:117-122 | the joined text is the first text, one space exactly when the first is non-empty and does not end in `.!?,:;`, then the second |
| Merge.Mergeable | conversational_analysis_editor.py:110-116 | defines when two neighbours fold: same speaker, no bracket in either text, joined length at most 150 |
| Merge.CombineFrom | conversational_analysis_editor.py:104-130 | defines the pass from a position on: fold while the pair there is mergeable, else move on; CombineNoMergeable and CombineIdempotent state its result |
| Merge.Combine | conversational_analysis_editor.py:100-130 | defines the whole load-time pass; its properties are the Combine* lemmas |
| Merge.FoldAt | conversational_analysis_editor.py:118-125 | folding keeps every other entry, writes the joined text into entry i and removes entry i+1 |
| Merge.FoldAtInPlace | conversational_analysis_editor.py:119-125 | overwriting entry i and popping entry i+1 is that fold |
| Merge.CombineStep | conversational_analysis_editor.py:104-130 | each turn of the pass stops, folds and stays at the same position, or moves on |
| Merge.CombineNoMergeable | conversational_analysis_editor.py:100-130 | after the pass no two neighbours have the same speaker, no bracket and a joined length of at most 150 |
| Merge.CombineIdempotent | conversational_analysis_editor.py:100-130 | running the pass on its own output changes nothing |
| Merge.CombineChangesIff | conversational_analysis_editor.py:100-130 | the pass changes the list exactly when two neighbours are mergeable |
| Merge.CombineLength | conversational_analysis_editor.py:100-130 | the pass never grows the list and never empties a non-empty one |
| Merge.BlockedStaysBlocked | conversational_analysis_editor.py:110-116 | a neighbour that cannot be folded stays so when the entry before it grows |
| EditorState.Editor.CombineSameSpeakerEntries | conversational_analysis_editor.py:100-130 | the in-place loop leaves the list the pass `Combine` describes |
| Display.EntryRows | conversational_analysis_editor.py:85-87 | every entry gets at least one row, the single row (0,"") for an empty text |
| Display.EntryRowsFacts | conversational_analysis_editor.py:84-90 | an entry's rows start at 0, are slices of its text at most the row width wide, non-empty when there are several, and follow one another |
| Display.AppendEntryRows | conversational_analysis_editor.py:85-90 | the per-entry part of reflow's loop appends the entry's rows tagged with its index |
| Display.Layout | conversational_analysis_editor.py:79-90 | defines the table reflow builds: every entry's rows tagged with its index, in entry order; BuildTable computes it and the Layout* lemmas state what it satisfies |
| EditorState.BuildTable | conversational_analysis_editor.py:79-90 | reflow's loop builds exactly the table `Layout` |
| Display.LayoutFits | conversational_analysis_editor.py:79-90 | every row of the table names an existing entry and shows the slice of its text at the row's offset |
| Display.LayoutOrder | conversational_analysis_editor.py:84-90 | the table lists the rows in entry order |
| Display.LayoutSize | conversational_analysis_editor.py:84-90 | the table has at least one row per entry |
| Display.LayoutEmptyText | conversational_analysis_editor.py:86-87 | an empty text is shown as the single row (entry, 0, "") |
| Display.LayoutSameTexts | conversational_analysis_editor.py:84-90 | the table depends on the texts alone, not on the speakers |
| Display.MovedRowText | conversational_analysis_editor.py:474-505 | an entry holding a row's text from its offset on starts with a row that shows the same characters |
| Display.FirstFit | conversational_analysis_editor.py:436-443 | a found row holds the target offset of the entry; with FirstFitFirst it is the first, and none is found only when no row holds it |
| Display.FirstFitFirst | conversational_analysis_editor.py:436-443 | the forward search finds the first fitting row, or proves there is none |
| Display.LastBefore | conversational_analysis_editor.py:445-449 | a found row is before the limit and belongs to the entry |
| Display.LastBeforeLast | conversational_analysis_editor.py:445-449 | the backward search finds the last such row, or proves there is none |
| Display.FirstStart | conversational_analysis_editor.py:594-598 | a found row starts the entry (offset 0) |
| Display.FirstStartFirst | conversational_analysis_editor.py:594-598 | the search finds the first row starting the entry, or proves there is none |
| Display.FindFirstFit | conversational_analysis_editor.py:436-443 | the scan returns what `FirstFit` describes |
| Display.FindLastBefore | conversational_analysis_editor.py:445-449 | the backward scan returns what `LastBefore` describes |
| Display.FindStart | conversational_analysis_editor.py:594-598 | the scan returns what `FirstStart` describes |
| Display.Landing | conversational_analysis_editor.py:433-449 | the first placement is on a row of the target entry |
| Display.Resolve | conversational_analysis_editor.py:433-457 | the final placement is on a row of the target entry, and is missing exactly when the first placement is |
| Display.ResolveLands | conversational_analysis_editor.py:433-461 | when the entry has a row the cursor is always placed, on a row of the entry and within it |
| Display.ResolveHits | conversational_analysis_editor.py:436-457 | when a row holds the offset the cursor shows it, or sits at the start of the next row when the offset ends a row |
| Display.ResolveMisses | conversational_analysis_editor.py:444-449 | when no row holds the offset the cursor goes to the end of the entry's last row |
| Display.ResolveNotAtBreak | conversational_analysis_editor.py:450-457 | the cursor is never left at the end of a row that its entry continues on the next row |
| Display.ResolvePlaces | conversational_analysis_editor.py:433-461 | in the table reflow builds, the cursor is always placed for an existing entry |
| Display.ResolveReaches | conversational_analysis_editor.py:433-461 | in that table, the cursor lands on every offset some row of the entry shows (shows it, or sits at the start of the next row when the offset ends a row) |
| Display.ResolveBeyond | conversational_analysis_editor.py:444-449 | in that table, for an offset past the end of the entry's last row the cursor goes to that end |
| Display.ShownEnd | conversational_analysis_editor.py:141-156 | the last row of an entry ends at the end of its text, or one short of it when wrapping dropped a trailing space |
| Display.Reachable | conversational_analysis_editor.py:436-443 | defines the offsets some row of an entry shows: those up to `ShownEnd` |
| Display.ReachableWhen | conversational_analysis_editor.py:141-156 | every offset before the end of a text is shown, and so is the end of a text that does not end in a space |
| Display.ReachableIff | conversational_analysis_editor.py:436-443 | an offset is reachable exactly when some row of the entry holds it |
| Display.StartFound | conversational_analysis_editor.py:594-598 | in that table, the row starting an entry is always found, at the entry's first row |
| Display.ContinuationRowAbove | conversational_analysis_editor.py:392-398 | in that table, a row at an offset past 0 has the row above it in the same entry, which the backward search finds |
| Display.ContinuationGap | conversational_analysis_editor.py:84-90 | in that table, the next row of an entry starts where a row ends, or one later past a space wrapping consumed |
| Cursor.Reflowed | conversational_analysis_editor.py:92-98 | after the clamp the cursor is on a row, within its field; a cursor below the table goes to the last row at column 0; a column past the field goes to the field's end; a cursor that fits is left alone |
| Cursor.ReflowedShown | conversational_analysis_editor.py:92-98 | reflowing a shown state changes nothing |
| Cursor.FieldLen | conversational_analysis_editor.py:353-359 | defines get_current_field_length: the speaker's length in the speaker field, the row's length in the content field; `Shown` keeps the column within it |
| Cursor.ShownSameTexts | conversational_analysis_editor.py:237-243 | changing only speakers leaves the table as it was |
| Cursor.Placed | conversational_analysis_editor.py:433-461 | defines set_cursor_for_content on a view: the cursor to the place `Resolve` gives, in the content field; PlacedLands states where that is |
| Cursor.PlacedLands | conversational_analysis_editor.py:433-461 | set_cursor_for_content in a shown state puts the cursor in the content field on a row of the entry: on the offset itself when a row shows it, otherwise at the end of the entry's last row; never at the end of a row its entry continues on; entries, table and scroll unchanged |
| Cursor.ScrolledDown | conversational_analysis_editor.py:304-307 | scrolling never goes back; a row below the view becomes the last of the height-1 visible rows; a row within the view leaves the scroll as it was |
| Cursor.Up | conversational_analysis_editor.py:291-298 | defines the Up key; UpShown states what it keeps |
| Cursor.Down | conversational_analysis_editor.py:299-308 | defines the Down key; DownShown states what it keeps |
| Cursor.Left | conversational_analysis_editor.py:309-321 | defines the Left key; LeftShown states what it keeps |
| Cursor.Right | conversational_analysis_editor.py:322-341 | defines the Right key; RightShown and RightLeftAsymmetric state what it does |
| Cursor.Home | conversational_analysis_editor.py:254-257 | defines the Home key: column 0 |
| Cursor.End | conversational_analysis_editor.py:259-262 | defines the End key: the end of the field |
| Cursor.Toggled | conversational_analysis_editor.py:273-276 | defines Tab: the other field at column 0 |
| Cursor.UpShown | conversational_analysis_editor.py:291-298 | Up moves one row up unless on the first row, keeps the cursor within its field and never leaves it above the view |
| Cursor.DownShown | conversational_analysis_editor.py:299-308 | Down moves one row down unless on the last row, keeps the cursor within its field and inside the visible rows |
| Cursor.LeftShown | conversational_analysis_editor.py:309-321 | Left stays within the cursor's entry and field; at column 0 of a continuation row it goes to the end of the row above |
| Cursor.RightShown | conversational_analysis_editor.py:322-341 | Right keeps the cursor on a row and within its field, and the entries unchanged |
| Cursor.RightLeftAsymmetric | conversational_analysis_editor.py:309-341 | Right at the end of an entry's last row goes to the next entry, and Left there does not come back |
| Cursor.LeftThenRight | conversational_analysis_editor.py:309-341 | within an entry, Right undoes Left at the start of a continuation row |
| Cursor.HomeEndTabShown | conversational_analysis_editor.py:253-276 | Home goes to column 0, End to the end of the field, Tab to the other field at column 0, each keeping the cursor within its field |
| Edits.Spliced | conversational_analysis_editor.py:366-371 | an inserted character is at the cursor's index, what was before stays, what was after moves one right |
| Edits.Removed | conversational_analysis_editor.py:382-428 | a deleted character's successors move one left, and what was before stays |
| Edits.SpliceRemoveRoundTrip | conversational_analysis_editor.py:366-428 | insert and delete at the same place undo each other, in both orders |
| Edits.TypeThenErase | conversational_analysis_editor.py:371-428 | inserting into an entry's text and deleting at the same place gives back the entry list |
| Edits.SplitEntry | conversational_analysis_editor.py:577-588 | a split keeps the prefix in place, puts the suffix with the same speaker right after it, shifts the later entries and loses no character |
| Edits.JoinBack | conversational_analysis_editor.py:410-418 | a join appends the text to the previous entry with nothing between and removes the entry |
| Edits.SplitJoinRoundTrip | conversational_analysis_editor.py:410-418 | joining the new entry back after a split gives back the list |
| Edits.Swapped | conversational_analysis_editor.py:496 | the exchange moves the two entries and keeps every other one |
| Edits.SwapTwice | conversational_analysis_editor.py:496 | an exchange is a permutation, and exchanging twice gives back the list |
| Undo.Pushed | conversational_analysis_editor.py:638-641 | a save appends the snapshot, dropping exactly the oldest one when 100 are kept |
| Undo.PushedBound | conversational_analysis_editor.py:638-641 | the history stays between 1 and 100 snapshots |
| Undo.PushedKeeps | conversational_analysis_editor.py:638-641 | below the limit nothing is dropped; at the limit only the oldest snapshot is |
| Undo.PushedNonEmpty | conversational_analysis_editor.py:626-641 | snapshots of non-empty entry lists stay so |
| Undo.Popped | conversational_analysis_editor.py:649-650 | an undo removes the newest snapshot and keeps the rest |
| Undo.Restored | conversational_analysis_editor.py:652-653 | the restored snapshot is the one below the newest |
| Undo.PoppedNonEmpty | conversational_analysis_editor.py:649-658 | an undo restores a non-empty entry list |
| Undo.PopUndoesPush | conversational_analysis_editor.py:638-650 | an undo right after a save below the limit gives back the history from before it |
| Undo.UndoSkipsOneEdit | conversational_analysis_editor.py:643-653 | after two saves, one undo restores the state from before the first |
| Operations.ShowsOffset | conversational_analysis_editor.py:450-457 | a shown cursor that shows an offset is on it, or at column 0 of the next row one further on, past a space that wrapping consumed |
| Operations.Relocated | conversational_analysis_editor.py:372-374 | after a content edit the view is shown, holds the new entries, and the cursor is in the content field on the edited entry: on the target offset when a row shows it, otherwise at the end of the entry's last row |
| Operations.Inserted | conversational_analysis_editor.py:361-374 | an insert keeps the view shown and the number of entries |
| Operations.InsertedSpeaker | conversational_analysis_editor.py:365-368 | a speaker insert changes only that speaker and moves the cursor one column right, on the same row |
| Operations.InsertedContent | conversational_analysis_editor.py:369-374 | a content insert changes only the cursor's entry, and leaves the cursor on it just after the new character when a row shows that offset, otherwise at the end of the entry's last row |
| Operations.InsertedAfter | conversational_analysis_editor.py:369-374 | after typing a character other than a space the cursor's offset is one more than before, on the same entry; or, when that offset ends a row and wrapping consumed the space after it, the cursor is at column 0 of the next row, two further on |
| Operations.ContentErase | conversational_analysis_editor.py:387-431 | backspace's choice: the row above of the same entry, a join only past the first entry, a delete only past offset 0 |
| Operations.ContentEraseCases | conversational_analysis_editor.py:392-431 | at column 0 of a continuation row backspace goes to the row just above; it does nothing iff at an entry's start that is the first entry or whose join would exceed three content widths |
| Operations.Backspaced | conversational_analysis_editor.py:376-431 | backspace keeps the view shown |
| Operations.ContentBackspaced | conversational_analysis_editor.py:387-431 | backspace in the content field keeps the view shown |
| Operations.Joined | conversational_analysis_editor.py:400-425 | a join keeps the view shown |
| Operations.Deleted | conversational_analysis_editor.py:427-431 | a delete keeps the view shown |
| Operations.DeletedChar | conversational_analysis_editor.py:427-431 | a delete removes the character before the cursor's offset from the cursor's entry only, and leaves the cursor on the offset one less when a row shows it, otherwise at the end of the entry's last row |
| Operations.BackspacedSpeaker | conversational_analysis_editor.py:378-385 | a speaker backspace removes the character before the cursor, if any, and leaves the table and row as they were |
| Operations.BackspacedContinuation | conversational_analysis_editor.py:392-398 | at column 0 of a continuation row nothing is deleted; the cursor goes to the end of the row above, in the same entry |
| Operations.BackspacedJoin | conversational_analysis_editor.py:400-425 | at an entry's start, past the first entry and within three content widths, the entry joins the previous one and the cursor goes to the join, or to the end of the joined entry's last row when wrapping dropped a space there |
| Operations.BackspacedRefused | conversational_analysis_editor.py:400-431 | at the start of the first entry, or of an entry whose join is too long, backspace changes nothing |
| Operations.BackspacedDelete | conversational_analysis_editor.py:427-431 | past column 0, backspace deletes the character before the cursor |
| Operations.InsertThenBackspace | conversational_analysis_editor.py:361-431 | typing a non-space character then backspace gives back the entries; when the cursor was carried to column 0 of the next row, backspace only moves and the character stays |
| Operations.EraseTyped | conversational_analysis_editor.py:366-431 | backspace right after a typed character, with the cursor past column 0, takes the character out and gives back the entries |
| Operations.ClearedSpeaker | conversational_analysis_editor.py:237-243 | `\` in the speaker field empties the cursor's entry's speaker and puts the cursor at column 0; nothing else changes |
| Operations.SplitAtCursor | conversational_analysis_editor.py:564-600 | a split keeps the view shown |
| Operations.ToStart | conversational_analysis_editor.py:593-598 | moving the cursor to an entry's start keeps the view shown |
| Operations.Follow | conversational_analysis_editor.py:502-505 | defines the cursor following an entry: to the first row that starts it, the column kept |
| Operations.Relaid | conversational_analysis_editor.py:496-505 | defines a move's ending: new entries, the table rebuilt, the cursor following the moved entry; RelaidShown states where it lands |
| Operations.SplitResult | conversational_analysis_editor.py:564-600 | a split adds exactly one entry (prefix in place, suffix after it with the same speaker) and leaves the cursor at column 0 of the new entry's first row |
| Operations.SplitThenBackspace | conversational_analysis_editor.py:564-600 | a split followed by backspace gives back the entries when the text is within three content widths, with the cursor showing the same offset of the same entry |
| Operations.RelaidShown | conversational_analysis_editor.py:496-505 | after a move, following the moved entry lands on its first row, which shows what the cursor's row showed |
| Operations.SplitForMoveUp | conversational_analysis_editor.py:466-493 | the entry to move is the second part after a split at a continuation row, else the cursor's entry; the move is refused exactly on the first row of the first entry |
| Operations.MoveUpRefused | conversational_analysis_editor.py:466-493 | defines when Page Up is refused: on the first row of the first entry |
| Operations.MovedUp | conversational_analysis_editor.py:463-507 | a move up keeps the view shown, and changes nothing when refused |
| Operations.MovedUpSwap | conversational_analysis_editor.py:491-505 | on an entry's first row, past the first entry, the entry is exchanged with the previous one and the cursor follows it |
| Operations.MovedUpSplit | conversational_analysis_editor.py:470-505 | on a continuation row, the second part of the split is put before the first and the cursor follows it |
| Operations.SplitForMoveDown | conversational_analysis_editor.py:512-543 | on a continuation row the entry is split there and the cursor goes to the second part's first row; otherwise nothing changes |
| Operations.MoveDownRefused | conversational_analysis_editor.py:545-548 | defines when Page Down is refused: on the last entry |
| Operations.MovedDown | conversational_analysis_editor.py:509-562 | a move down keeps the view shown |
| Operations.SwappedDown | conversational_analysis_editor.py:545-560 | the exchange with the next entry keeps the view shown |
| Operations.MovedDownSwap | conversational_analysis_editor.py:509-562 | away from the last entry, the moving entry is exchanged with the next one and the cursor follows it to a row showing what it showed |
| Operations.SwappedDownMoves | conversational_analysis_editor.py:550-560 | the exchange moves the entry one place down and the cursor to its first row |
| Operations.MovedDownLast | conversational_analysis_editor.py:545-548 | on the last entry nothing moves, but a continuation row is still split |
| Operations.MoveUpThenDown | conversational_analysis_editor.py:463-562 | moving an entry up then down again restores the order |
| Operations.SnapshotOf | conversational_analysis_editor.py:626-641 | defines what a save copies: the entries, the cursor and the scroll offset; RestoreSnapshot states that restoring it gives the state back |
| Operations.Restore | conversational_analysis_editor.py:655-667 | an undo puts back the snapshot's entries, field and scroll, and the view is shown |
| Operations.RestoreSnapshot | conversational_analysis_editor.py:623-667 | restoring the snapshot of a shown state gives that state back exactly |
| Operations.UndoAfterOneEdit | conversational_analysis_editor.py:623-669 | when the newest snapshot is the current state, a save then an undo gives the state back |
| Keys.Tick | conversational_analysis_editor.py:221-224 | the counter stays below 10 and restarts exactly when it reaches 10 |
| Keys.TicksModulo | conversational_analysis_editor.py:221-224 | after n keys the counter is n mod 10, so the autosave fires exactly on every tenth key |
| Keys.Dispatch | conversational_analysis_editor.py:227-351 | exactly the codes below 32 but Tab and newline are reported as control keys; exactly the codes 32 to 126 but `\`, backquote and `~` are typed, as themselves; `\` clears only in the speaker field; End and Enter act only in the content field |
| Keys.CursorKeys | conversational_analysis_editor.py:254-341 | by their ncurses codes, Home and the arrows move in either field, End only in the content field, and Tab changes the field |
| Keys.EditingKeys | conversational_analysis_editor.py:249-351 | by their ncurses codes, Delete undoes, Page Up and Page Down move the entry, Backspace and 127 erase, Enter and newline split in the content field and do nothing in the speaker field |
| Keys.ControlShortcutsDead | conversational_analysis_editor.py:227-281 | codes 19, 17 and 28, and every code below 32 but Tab and newline, are only reported as control keys |
| Keys.PrintableCodes | conversational_analysis_editor.py:237-351 | a code from 32 to 126 is typed iff it is not `\`, backquote or `~`; `\` clears the speaker only in the speaker field |
| Keys.Typed | conversational_analysis_editor.py:344-351 | typing, backspace and clearing the speaker keep the view shown |
| Keys.Rearranged | conversational_analysis_editor.py:263-288 | split and the moves keep the view shown |
| Keys.Navigated | conversational_analysis_editor.py:253-341 | the cursor keys and Tab keep the view shown |
| Keys.StepView | conversational_analysis_editor.py:217-351 | every key keeps the view shown |
| Keys.StepStack | conversational_analysis_editor.py:237-288 | an edit saves the state it starts from; undo pops when there are two snapshots; other keys leave the history alone |
| Keys.StepRequest | conversational_analysis_editor.py:244-248 | backquote asks for the file to be written and `~` for the editor to stop, and nothing else does |
| Keys.StepStatus | conversational_analysis_editor.py:217-351 | defines the status line after a key: what the key found, overwritten by the control-key report, the undo report, or a split's or move's report |
| Keys.RearrangeStatus | conversational_analysis_editor.py:263-288 | defines what a split or a move reports: the split offset or not in a content field; moved, or already at the top or the bottom |
| Keys.TypingStep | conversational_analysis_editor.py:344-351 | the text-editing keys save a snapshot and leave the status line alone |
| Keys.RearrangeStep | conversational_analysis_editor.py:263-288 | split and the moves save a snapshot and report as their status says |
| Keys.MoveStep | conversational_analysis_editor.py:253-341 | the cursor keys touch neither the history nor the status line |
| Keys.NonEditsKeepEntries | conversational_analysis_editor.py:244-341 | keys that do not edit leave the entries and the history alone |
| Keys.EditThenUndo | conversational_analysis_editor.py:643-669 | when the newest snapshot is the current state, any edit followed by the undo key gives back the view and the history |
| Keys.UndoOnFreshHistory | conversational_analysis_editor.py:645-647 | with one snapshot the undo key changes nothing and reports nothing to undo |
| EditorState.StartEntries | conversational_analysis_editor.py:32-36 | the editor starts from the loaded entries, or one empty entry of speaker "Speaker" |
| EditorState.CopyEntries | conversational_analysis_editor.py:626-628 | the deep copy equals the entry list |
| EditorState.SplitEntryAt | conversational_analysis_editor.py:474-485 | the in-place split is `SplitEntry` |
| EditorState.Editor.constructor | conversational_analysis_editor.py:12-41 | start-up folds same-speaker neighbours, lays out the table with the cursor at the top, saves one snapshot and leaves a valid editor |
| EditorState.Editor.Start | conversational_analysis_editor.py:37-41 | the first reflow folds, then the first snapshot is saved |
| EditorState.Editor.FirstReflow | conversational_analysis_editor.py:76-77 | only the reflow at load time folds entries |
| EditorState.Editor.Reflow | conversational_analysis_editor.py:68-98 | reflow rebuilds the table and clamps the cursor as `Reflowed` says |
| EditorState.Editor.SaveUndoState | conversational_analysis_editor.py:623-641 | the history becomes `Pushed(old history, snapshot of the state)`, and stays bounded and non-empty |
| EditorState.Editor.SetCursorForContent | conversational_analysis_editor.py:433-461 | the cursor ends where `Placed` says, so `PlacedLands` holds of it |
| EditorState.Editor.HandleInsert | conversational_analysis_editor.py:361-374 | a snapshot is saved and the state becomes `Inserted` of the old one |
| EditorState.Editor.InsertInSpeaker | conversational_analysis_editor.py:365-368 | the speaker branch computes `Inserted` |
| EditorState.Editor.InsertInContent | conversational_analysis_editor.py:369-374 | the content branch computes `Inserted` |
| EditorState.Editor.StoreAndPlace | conversational_analysis_editor.py:372-374 | storing, reflowing and placing the cursor compute `Relocated` |
| EditorState.Editor.HandleBackspace | conversational_analysis_editor.py:376-431 | a snapshot is saved and the state becomes `Backspaced` of the old one |
| EditorState.Editor.BackspaceInSpeaker | conversational_analysis_editor.py:378-385 | the speaker branch computes `Backspaced` |
| EditorState.Editor.BackspaceInContent | conversational_analysis_editor.py:387-431 | the content branch computes `ContentBackspaced` |
| EditorState.Editor.JoinWithPrevious | conversational_analysis_editor.py:400-425 | the join branch computes `Joined` |
| EditorState.Editor.DeleteBeforeCursor | conversational_analysis_editor.py:427-431 | the delete branch computes `Deleted` |
| EditorState.Editor.ClearSpeakerField | conversational_analysis_editor.py:237-243 | a snapshot is saved and the state becomes `ClearedSpeaker` of the old one |
| EditorState.Editor.EmptySpeaker | conversational_analysis_editor.py:239-242 | emptying the speaker computes `ClearedSpeaker` |
| EditorState.Editor.SplitLineAtCursor | conversational_analysis_editor.py:564-600 | the state becomes `SplitAtCursor` of the old one, and the status names the split offset or the refusal |
| EditorState.Editor.SplitCursorEntry | conversational_analysis_editor.py:577-598 | the content-field case computes `SplitAtCursor` |
| EditorState.Editor.StoreAndStart | conversational_analysis_editor.py:588-598 | storing, reflowing and going to an entry's start compute `ToStart` |
| EditorState.Editor.CursorToStart | conversational_analysis_editor.py:593-598 | the scan puts the cursor where `ToStart` says |
| EditorState.Editor.FollowEntry | conversational_analysis_editor.py:502-505 | the scan puts the cursor where `Follow` says |
| EditorState.Editor.RelayAndFollow | conversational_analysis_editor.py:496-505 | storing, reflowing and following compute `Relaid` |
| EditorState.Editor.SplitEntryKey | conversational_analysis_editor.py:284-288 | Enter saves a snapshot, splits, and reports as `RearrangeStatus` says |
| EditorState.Editor.MoveEntryUp | conversational_analysis_editor.py:463-507 | a snapshot is saved, the state becomes `MovedUp` of the old one, and the status says moved or already at the top |
| EditorState.Editor.MoveUp | conversational_analysis_editor.py:466-507 | the move after the snapshot computes `MovedUp` |
| EditorState.Editor.SplitBeforeMoveUp | conversational_analysis_editor.py:466-488 | the first step computes `SplitForMoveUp` |
| EditorState.Editor.MoveEntryDown | conversational_analysis_editor.py:509-562 | a snapshot is saved, the state becomes `MovedDown` of the old one, and the status says moved or already at the bottom |
| EditorState.Editor.MoveDown | conversational_analysis_editor.py:512-562 | the move after the snapshot computes `MovedDown` |
| EditorState.Editor.SplitBeforeMoveDown | conversational_analysis_editor.py:512-543 | the first step computes `SplitForMoveDown` |
| EditorState.Editor.SwapWithNext | conversational_analysis_editor.py:545-562 | the second step computes `SwappedDown` |
| EditorState.Editor.Undo | conversational_analysis_editor.py:643-669 | with one snapshot nothing changes and the status says so; otherwise the newest snapshot is popped and the one below restored |
| EditorState.Editor.RestoreState | conversational_analysis_editor.py:655-667 | copying a snapshot back and reflowing computes `Restore` |
| EditorState.Editor.ArrowUp | conversational_analysis_editor.py:291-298 | the Up key computes `Up` |
| EditorState.Editor.ArrowDown | conversational_analysis_editor.py:299-308 | the Down key computes `Down` |
| EditorState.Editor.ArrowLeft | conversational_analysis_editor.py:309-321 | the Left key computes `Left` |
| EditorState.Editor.ArrowRight | conversational_analysis_editor.py:322-341 | the Right key computes `Right` |
| EditorState.Editor.ProcessKey | conversational_analysis_editor.py:217-351 | one key advances the counter (autosave due on the tenth), performs the dispatched action as `StepView`, `StepStack` and `StepStatus` say, and keeps the editor valid |
| EditorState.Editor.CountKeystroke | conversational_analysis_editor.py:218-224 | the status is cleared and the counter ticks; at ten the autosave is due and noted |
| EditorState.Editor.Perform | conversational_analysis_editor.py:227-351 | performing an action computes the step functions and keeps the editor valid |
| EditorState.Editor.PerformEdit | conversational_analysis_editor.py:237-351 | the edit keys compute the step functions |
| EditorState.Editor.PerformTyping | conversational_analysis_editor.py:344-351 | typing and backspace compute the step functions |
| EditorState.Editor.PerformRearrange | conversational_analysis_editor.py:263-288 | split and the moves compute the step functions |
| EditorState.Editor.PerformOther | conversational_analysis_editor.py:227-251 | undo and the control keys compute the step functions |
| EditorState.Editor.PerformMove | conversational_analysis_editor.py:253-341 | the cursor keys compute the step functions and leave history and status alone |

## Left out

- Drawing the screen (`render`, lines 158-215), the curses set-up and the main loop
  (lines 671-685) are not modelled: they show the state and do not change it.
- Reading and writing files is not modelled: `load_file`, `save_file`, `autosave` and
  `get_swap_filename` (lines 43-66, 602-621). Start-up takes the loaded entries as a
  parameter. `ProcessKey` returns `autosave` (a swap file write is due) and `req` (the file
  should be written, or the editor should stop) for the caller to act on. The `~` key's
  KeyboardInterrupt becomes `QuitRequested`.
- Status texts are modelled as the `Status` datatype. The messages of the file operations
  belong to the caller. An autosave's message is `Autosaved`, and the key's own message
  overwrites it, as in the source.
- The terminal size is a pair of constants fixed for the session. The source re-reads it on
  every reflow and scroll, so resizing the window is not modelled.
- The model requires a terminal at least 24 columns wide, so the content width is at least 1.
  With fewer columns, the source's wrapping loop is given a width of zero or less.
- Keys are integer codes, as `getch` returns them. The curses key constants are fixed at their
  ncurses values (`Keys.KeyDown` 258 to `Keys.KeyEnd` 360); the curses library that defines them
  is not part of this model.
- A load that yields no entries is not modelled: an empty file, or an error before the first
  line is read. The entry list is then empty, and the first reflow indexes an empty display
  table. A load that fails partway keeps the entries read so far and sets an error status; the
  constructor takes those entries as its parameter, and the error text belongs to the caller.
  The model's constructor requires at least one loaded entry.
- EditorState.Editor.SaveUndoState: the entries are copied one by one, as in the source, but
  entries are values here. Sharing between the list and the history therefore cannot arise, and
  the model does not show that the copies prevent it.
- Operations.InsertThenBackspace: proved only for a character other than a space. A typed
  space can be the space a row break consumes, and the round trip then depends on where the
  wrap falls.
- Operations.SplitThenBackspace: proved only when the text is at most three content widths
  long. Above that, the source refuses the join.
