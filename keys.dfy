/** process_key as functions: which action a key selects, what one key does to the view, the
    undo history and the status line, and the keystroke counter behind the autosave. */
module Keys {
  import opened Dialogue
  import opened Display
  import opened Undo
  import opened Cursor
  import opened Operations

  /** Keystrokes between two autosaves. */
  const AutosaveInterval := 10

  /** The keystroke counter after one more key: it goes back to 0 when it reaches the autosave
      interval, which is when the autosave fires. */
  function Tick(count: nat): (r: nat)
    ensures r < AutosaveInterval
    ensures r == 0 <==> count + 1 >= AutosaveInterval
    ensures count + 1 < AutosaveInterval ==> r == count + 1
  {
    if count + 1 >= AutosaveInterval then 0 else count + 1
  }

  /** The counter after n keys from a fresh start. */
  function Ticks(n: nat): nat
  {
    if n == 0 then 0 else Tick(Ticks(n - 1))
  }

  /** After n keys the counter is n modulo the interval, so the autosave fires on every tenth
      key: on key n exactly when n is a multiple of the interval. */
  lemma {:induction false} TicksModulo(n: nat)
    ensures Ticks(n) == n % AutosaveInterval
    ensures n >= 1 ==> (Ticks(n) == 0 <==> n % AutosaveInterval == 0)
  {
    if n > 0 {
      TicksModulo(n - 1);
    }
  }

  /** What a key does. */
  datatype Action =
    | ControlKey(code: int)
    | ClearSpeaker
    | SaveFile
    | Quit
    | UndoKey
    | GoHome
    | GoEnd
    | MoveEntryUp
    | MoveEntryDown
    | ToggleField
    | SplitHere
    | GoUp
    | GoDown
    | GoLeft
    | GoRight
    | Erase
    | Insert(c: char)
    | Ignore

  /** Character codes process_key tests for. */
  const Tab := 9
  const Newline := 10
  const Backslash := 92
  const Backquote := 96
  const Tilde := 126
  const Del := 127

  /** The codes ncurses gives the named keys. */
  const KeyDown := 258
  const KeyUp := 259
  const KeyLeft := 260
  const KeyRight := 261
  const KeyHome := 262
  const KeyBackspace := 263
  const KeyDelete := 330
  const KeyPageDown := 338
  const KeyPageUp := 339
  const KeyEnter := 343
  const KeyEnd := 360

  /** process_key's chain of tests on the key code, in its order, for a cursor in field f. A
      code below 32 other than Tab and newline is reported as a control key before anything
      else is looked at, so the later tests for codes 28 (Ctrl+\), 19 (Ctrl+S) and 17 (Ctrl+Q)
      can never succeed and are not part of the chain. A key that no test takes does
      nothing. */
  function Dispatch(key: int, f: Field): (r: Action)
    ensures r.ControlKey? <==> key < 32 && key != Tab && key != Newline
    ensures r.ControlKey? ==> r.code == key
    ensures r.Insert? <==>
      32 <= key <= 126 && key != Backslash && key != Backquote && key != Tilde
    ensures r.Insert? ==> r.c as int == key
    ensures r.ClearSpeaker? ==> f == Speaker
    ensures (r.GoEnd? || r.SplitHere?) ==> f == Content
  {
    if key < 32 && key != Tab && key != Newline then ControlKey(key)
    else if key == Backslash && f == Speaker then ClearSpeaker
    else if key == Backquote then SaveFile
    else if key == Tilde then Quit
    else if key == KeyDelete then UndoKey
    else if key == KeyHome then GoHome
    else if key == KeyEnd && f == Content then GoEnd
    else if key == KeyPageUp then MoveEntryUp
    else if key == KeyPageDown then MoveEntryDown
    else if key == Tab then ToggleField
    else if key == Newline || key == KeyEnter then (if f == Content then SplitHere else Ignore)
    else if key == KeyUp then GoUp
    else if key == KeyDown then GoDown
    else if key == KeyLeft then GoLeft
    else if key == KeyRight then GoRight
    else if key == KeyBackspace || key == Del then Erase
    else if 32 <= key <= 126 && key != Backslash && key != Backquote && key != Tilde then
      Insert(key as char)
    else Ignore
  }

  /** The shortcuts process_key tests for Ctrl+S, Ctrl+Q and Ctrl+\ are unreachable: those codes
      are reported as control keys, whatever the field. Every other code below 32 too, except
      Tab and newline. */
  lemma ControlShortcutsDead(f: Field)
    ensures Dispatch(19, f) == ControlKey(19)
    ensures Dispatch(17, f) == ControlKey(17)
    ensures Dispatch(28, f) == ControlKey(28)
    ensures forall n :: n < 32 && n != Tab && n != Newline ==> Dispatch(n, f) == ControlKey(n)
  {
  }

  /** Which printable codes are typed into the text: every code from 32 to 126 except the three
      shortcut characters; `\` outside the speaker field does nothing. */
  lemma PrintableCodes(n: int, f: Field)
    requires 32 <= n <= 126
    ensures Dispatch(n, f).Insert? <==> n != Backslash && n != Backquote && n != Tilde
    ensures Dispatch(n, f).Insert? ==> Dispatch(n, f).c == n as char
    ensures n == Backslash ==> Dispatch(n, f) == if f == Speaker then ClearSpeaker else Ignore
  {
  }

  /** The cursor keys, by their ncurses codes: Home and the arrows move in either field, End
      only in the content field, and Tab changes the field. */
  lemma CursorKeys(f: Field)
    ensures Dispatch(KeyHome, f) == GoHome && Dispatch(KeyUp, f) == GoUp && Dispatch(KeyDown, f) == GoDown
    ensures Dispatch(KeyLeft, f) == GoLeft && Dispatch(KeyRight, f) == GoRight
    ensures Dispatch(KeyEnd, f) == (if f == Content then GoEnd else Ignore)
    ensures Dispatch(Tab, f) == ToggleField
  {
  }

  /** The editing keys, by their ncurses codes: Delete undoes, Page Up and Page Down move the
      entry, Backspace and code 127 erase, and Enter and newline split in the content field and
      do nothing in the speaker field. */
  lemma EditingKeys(f: Field)
    ensures Dispatch(KeyDelete, f) == UndoKey
    ensures Dispatch(KeyPageUp, f) == MoveEntryUp && Dispatch(KeyPageDown, f) == MoveEntryDown
    ensures Dispatch(KeyBackspace, f) == Erase && Dispatch(Del, f) == Erase
    ensures Dispatch(KeyEnter, f) == Dispatch(Newline, f) == (if f == Content then SplitHere else Ignore)
  {
  }

  /** The keys that edit text: typing, backspace and clearing the speaker. */
  predicate IsTyping(a: Action)
  {
    a.Insert? || a.Erase? || a.ClearSpeaker?
  }

  /** The keys that rearrange the entries: split and the two moves. */
  predicate IsRearrange(a: Action)
  {
    a.SplitHere? || a.MoveEntryUp? || a.MoveEntryDown?
  }

  /** The keys that change the entries: each saves a snapshot first. */
  predicate IsEdit(a: Action)
  {
    IsTyping(a) || IsRearrange(a)
  }

  /** What a key that edits text does to a shown view. */
  function Typed(v: View, a: Action, cw: int): (r: View)
    requires Shown(v, cw) && IsTyping(a)
    ensures Shown(r, cw)
  {
    match a
    case Insert(c) => Inserted(v, cw, c)
    case Erase => Backspaced(v, cw)
    case ClearSpeaker => ClearedSpeaker(v, cw)
  }

  /** What split and the two moves do to a shown view. */
  function Rearranged(v: View, a: Action, cw: int): (r: View)
    requires Shown(v, cw) && IsRearrange(a)
    ensures Shown(r, cw)
  {
    match a
    case SplitHere => SplitAtCursor(v, cw)
    case MoveEntryUp => MovedUp(v, cw)
    case MoveEntryDown => MovedDown(v, cw)
  }

  /** What the other keys, apart from undo, do to a shown view: the cursor keys move the
      cursor, Tab toggles the field, and the rest leave the view alone. */
  function Navigated(v: View, a: Action, cw: int, height: int): (r: View)
    requires Shown(v, cw)
    ensures Shown(r, cw)
  {
    match a
    case GoHome => HomeEndTabShown(v, cw); Home(v)
    case GoEnd => HomeEndTabShown(v, cw); End(v)
    case ToggleField => HomeEndTabShown(v, cw); Toggled(v)
    case GoUp => UpShown(v, cw); Up(v)
    case GoDown => DownShown(v, cw, height); Down(v, height)
    case GoLeft => LeftShown(v, cw); Left(v)
    case GoRight => RightShown(v, cw, height); Right(v, height)
    case _ => v
  }

  /** What one action does to a shown view; the undo key restores the snapshot below the newest
      one, when there is one. */
  function StepView(v: View, stack: seq<Snapshot>, a: Action, cw: int, height: int): (r: View)
    requires Shown(v, cw) && NonEmptySnapshots(stack)
    ensures Shown(r, cw)
  {
    if IsTyping(a) then Typed(v, a, cw)
    else if IsRearrange(a) then Rearranged(v, a, cw)
    else if a.UndoKey? then
      if |stack| <= 1 then v
      else
        PoppedNonEmpty(stack);
        Restore(Restored(stack), cw)
    else Navigated(v, a, cw, height)
  }

  /** What one action does to the undo history: an edit saves the state it starts from; the
      undo key drops the newest snapshot when there are at least two. */
  function StepStack(v: View, stack: seq<Snapshot>, a: Action): (r: seq<Snapshot>)
    ensures IsEdit(a) ==> r == Pushed(stack, SnapshotOf(v))
    ensures a.UndoKey? && |stack| >= 2 ==> r == Popped(stack)
    ensures !IsEdit(a) && !(a.UndoKey? && |stack| >= 2) ==> r == stack
  {
    if IsEdit(a) then Pushed(stack, SnapshotOf(v))
    else if a.UndoKey? && |stack| >= 2 then Popped(stack)
    else stack
  }

  /** The status line. The messages of writing the file are the caller's; the rest are the
      ones the modelled operations set. */
  datatype Status =
    | NoStatus
    | ControlKeyPressed(code: int)
    | Autosaved
    | NothingToUndo
    | UndoDone
    | AlreadyTop
    | AlreadyBottom
    | EntryMovedUp
    | EntryMovedDown
    | SplitAt(pos: nat)
    | NotInContent

  /** The status line after an action: `start` is what the key found (cleared, or the autosave
      notice), and the actions that report something overwrite it. */
  function StepStatus(v: View, stack: seq<Snapshot>, a: Action, start: Status): Status
    requires v.line < |v.lines|
  {
    if IsRearrange(a) then RearrangeStatus(v, a)
    else
      match a
      case ControlKey(n) => ControlKeyPressed(n)
      case UndoKey => if |stack| <= 1 then NothingToUndo else UndoDone
      case _ => start
  }

  /** What a split or a move reports: where the split fell or that the cursor was not in a
      content field, and whether the move was refused at the top or the bottom. */
  function RearrangeStatus(v: View, a: Action): Status
    requires v.line < |v.lines| && IsRearrange(a)
  {
    match a
    case MoveEntryUp => if MoveUpRefused(v) then AlreadyTop else EntryMovedUp
    case MoveEntryDown => if MoveDownRefused(v) then AlreadyBottom else EntryMovedDown
    case SplitHere => if v.field == Content then SplitAt(CursorOffset(v)) else NotInContent
  }

  /** The keys that edit text save a snapshot of the state they start from and leave the
      status line as the key found it. */
  lemma TypingStep(v: View, stack: seq<Snapshot>, a: Action, start: Status, cw: int, height: int)
    requires Shown(v, cw) && NonEmptySnapshots(stack) && IsTyping(a)
    ensures StepView(v, stack, a, cw, height) == Typed(v, a, cw)
    ensures StepStack(v, stack, a) == Pushed(stack, SnapshotOf(v)) && StepStatus(v, stack, a, start) == start
  {
  }

  /** Split and the two moves save a snapshot of the state they start from. */
  lemma RearrangeStep(v: View, stack: seq<Snapshot>, a: Action, start: Status, cw: int, height: int)
    requires Shown(v, cw) && NonEmptySnapshots(stack) && IsRearrange(a)
    ensures StepView(v, stack, a, cw, height) == Rearranged(v, a, cw)
    ensures StepStack(v, stack, a) == Pushed(stack, SnapshotOf(v))
    ensures StepStatus(v, stack, a, start) == RearrangeStatus(v, a)
  {
  }

  /** The keys that only move the cursor, and those handled outside the editor, touch neither
      the history nor the status line. */
  lemma MoveStep(v: View, stack: seq<Snapshot>, a: Action, start: Status, cw: int, height: int)
    requires Shown(v, cw) && NonEmptySnapshots(stack) && !IsEdit(a) && !a.UndoKey? && !a.ControlKey?
    ensures StepView(v, stack, a, cw, height) == Navigated(v, a, cw, height)
    ensures StepStack(v, stack, a) == stack && StepStatus(v, stack, a, start) == start
  {
  }

  /** What a key asks of the program around the editor: to write the file, or to stop. */
  datatype Request = NoRequest | SaveRequested | QuitRequested

  function StepRequest(a: Action): (r: Request)
    ensures r == SaveRequested <==> a == SaveFile
    ensures r == QuitRequested <==> a == Quit
  {
    if a == SaveFile then SaveRequested else if a == Quit then QuitRequested else NoRequest
  }

  /** Keys that only move the cursor, toggle the field or report something leave the entries and
      the undo history alone. */
  lemma NonEditsKeepEntries(v: View, stack: seq<Snapshot>, a: Action, cw: int, height: int)
    requires Shown(v, cw) && NonEmptySnapshots(stack) && !IsEdit(a) && !a.UndoKey?
    ensures StepView(v, stack, a, cw, height).entries == v.entries
    ensures StepStack(v, stack, a) == stack
  {
    match a
    case GoUp => UpShown(v, cw);
    case GoDown => DownShown(v, cw, height);
    case GoLeft => LeftShown(v, cw);
    case GoRight => RightShown(v, cw, height);
    case _ =>
  }

  /** When the newest snapshot is the state an edit starts from (as right after start-up, or
      after an undo), the undo key right after that edit gives that state back, and the history
      is as it was. */
  lemma EditThenUndo(v: View, stack: seq<Snapshot>, a: Action, cw: int, height: int)
    requires Shown(v, cw) && NonEmptySnapshots(stack) && IsEdit(a)
    requires 1 <= |stack| < UndoLimit && stack[|stack| - 1] == SnapshotOf(v)
    ensures var w := StepView(v, stack, a, cw, height); var s := StepStack(v, stack, a);
      NonEmptySnapshots(s) &&
      StepView(w, s, UndoKey, cw, height) == v && StepStack(w, s, UndoKey) == stack
  {
    var x := SnapshotOf(v);
    var s := StepStack(v, stack, a);
    assert s == Pushed(stack, x);
    PushedNonEmpty(stack, x);
    PopUndoesPush(stack, x);
    var w := StepView(v, stack, a, cw, height);
    assert StepView(w, s, UndoKey, cw, height) == Restore(Restored(s), cw);
    UndoAfterOneEdit(stack, v, cw);
  }

  /** The undo key on a history of one snapshot changes nothing and says so. */
  lemma UndoOnFreshHistory(v: View, s: Snapshot, cw: int, height: int)
    requires Shown(v, cw) && |s.entries| >= 1
    ensures StepView(v, [s], UndoKey, cw, height) == v && StepStack(v, [s], UndoKey) == [s]
    ensures StepStatus(v, [s], UndoKey, NoStatus) == NothingToUndo
  {
  }
}
