# Emacs text editor plugin — a verified model

This project models the editing core of an Obsidian plugin that gives the
Markdown editor Emacs-style keys:

- The mark (`selectFrom`) and the helpers that keep the host selection in
  step with it: `disableSelection`, `withSelectionUpdate` and
  `updateSelectionIsNeed`.
- The commands built on them:
  - set-mark-command and keyboard-quit;
  - the motions, including move-end-of-line and move-beginning-of-line;
  - kill-line;
  - delete-char, kill-word and backward-kill-word, through `withDeleteInText`;
  - kill-ring-save, kill-region and yank.
- The text form of a key chord (`KeyPress.text`), which the key map is
  indexed by.
- The settings tab's rebinding of a command to a new key.

The model has seven modules:

- `Buffer` is the host document. It is a non-empty sequence of lines with
  no line break inside any line, plus positions `(line, ch)`. It defines the
  flat text of the document, offsets, ranges, and the one edit primitive
  `Replace`. Their laws are proved: splitting the joined text gives back the
  lines, and `Replace` acts on the flat text as a splice.
- `Host` is the host editor as a class (`Editor`). Its fields are the lines
  and the selection's anchor and head; the cursor is the head. Each method
  is one editor call the plugin makes (`setSelection`, `setCursor`,
  `setLine`, `replaceRange`, `replaceSelection`, `exec`), and its contract
  gives the whole new state.
- `Session` holds one specification function per plugin operation. Each
  acts on a `View` that snapshots the document, the selection, the mark and
  the clipboard. The lemmas beside them state what the commands promise.
- `Emacs` is the plugin as a class (`EmacsPlugin`). It has the mark field
  and the clipboard. Its methods make the same host calls as the source, in
  the same order. Each is proved to leave exactly the state its `Session`
  function describes.
- `Commands` maps each command to its function and folds sequences of
  commands. It proves the mark invariant holds over any sequence: with a
  mark, the selection runs from the mark to the cursor; without one, it is
  the cursor alone.
- `Chords` and `Keymap` cover the chord text, the default key map and the
  rebinding loop, which is a method over a `map` field.

## Model

| member | source | states |
|---|---|---|
| Chords.Text | main.ts:34-41 | the chord's text is the key alone when no modifier is held; its length is the key's plus 7, 7, 6 and 8 for the Meta, Ctrl, Alt and Shift labels held |
| Chords.ParseText | main.ts:34-41 | the labels appear in the fixed order Meta, Ctrl, Alt, Shift before the key: reading them off in that order gives back every modifier and the key |
| Chords.TextInjective | main.ts:34-41 | two chords with the same text are the same chord, so each chord has its own key-map entry |
| Keymap.Rebound | main.ts:466-472 | after rebinding, the new key maps to the command, no other key maps to it, every other surviving key keeps its old command, and only entries bound to the command (or the one at the new key) are removed or overwritten |
| Keymap.RebindKeepsOneKeyPerCommand | main.ts:466-472 | if no command had two keys before a rebinding, none has two after it |
| Keymap.Settings.constructor | main.ts:57-66 | a fresh settings object holds the four default Ctrl bindings |
| Keymap.Settings.Rebind | main.ts:466-472 | the loop that deletes, over a snapshot of the entries, every key bound to the command and then binds the new key leaves exactly the map `Rebound` describes |
| Host.Editor.SetSelection | main.ts:409 | the anchor and head become the given positions, clipped into the document; the text is unchanged |
| Host.Editor.SetCursor | main.ts:284 | the selection collapses on the clipped position; the text is unchanged |
| Host.Editor.SetLine | main.ts:199 | line n is replaced by the given string |
| Host.Editor.ReplaceRange | main.ts:278 | the string is inserted at the clipped position |
| Host.Editor.ReplaceSelection | main.ts:264 | the text between anchor and head gives way to the string, and the cursor lands at the end of the inserted text |
| Host.Editor.ExecMotion | main.ts:212 | a host motion moves the cursor to an in-bounds destination and leaves the text alone |
| Host.Editor.ExecDeleteLine | main.ts:197 | the cursor's line is removed and every other line kept (a lone line is emptied); the cursor moves one line down, then through the deletion |
| Session.DisableSelection | main.ts:408-411 | the mark is gone, anchor and head both equal the old cursor, and text and clipboard are unchanged |
| Session.UpdateSelectionIfNeeded | main.ts:423-429 | with a mark, the selection runs from the mark to the cursor and text, cursor, mark and clipboard are unchanged; without one, nothing changes |
| Session.Target | main.ts:148-165 | every motion lands in the document; move-beginning-of-line goes to column 0, which in the flat text is the start or just after a line break, with no break between it and the cursor; move-end-of-line goes to the line's length, which is the end of the text or just before a line break, with no break between the cursor and it |
| Session.WithSelectionUpdate | main.ts:413-421 | the cursor goes where the motion sends it; text, mark and clipboard are unchanged; with a mark the anchor is the mark; without one the wrapper adds nothing to the motion |
| Session.WithDeleteInText | main.ts:431-440 | exactly the text between the cursor before and after the motion is removed, in either direction, and the cursor ends at the earlier of the two |
| Session.KillLine | main.ts:191-202 | on a non-empty line, that line becomes its prefix up to the cursor, every other line is unchanged and the cursor is restored; on an empty line the line is removed unless it is the only one, and the cursor stays, or goes to the end of the line above when the removed line was the last; the mark is cleared and the clipboard untouched |
| Session.KillLineText | main.ts:191-202 | on a non-empty line the text removed is exactly from the cursor to the end of the line |
| Session.KillRingSave | main.ts:241-253 | without a mark nothing changes; with one, the selected text goes to the clipboard, the text is unchanged, and the mark is cleared with the selection collapsed on the cursor |
| Session.KillRegion | main.ts:255-268 | without a mark nothing changes; with one, the selected text goes to the clipboard and is cut out of the text, the cursor is at the region's start and the mark is cleared |
| Session.Yank | main.ts:270-286 | the clipboard is spliced into the text at the cursor (no mark) or over the selection (mark); the mark is cleared; the cursor is set on the old cursor's line at column `ch + \|clipboard\|`, clipped as the host clips it |
| Session.YankRange | main.ts:277-282 | yank replaces an ordered, in-bounds range: the cursor alone, or the selection |
| Session.YankCursorAfterText | main.ts:277-284 | without a mark and with a clipboard holding no line break, the cursor ends right after the inserted text |
| Session.KillRegionThenYank | main.ts:255-286 | kill-region followed by yank restores the text; for a region within one line the cursor ends where the region ended |
| Session.SetMarkCommand | main.ts:291-297 | without a mark, the mark is set at the cursor and nothing else changes; with one, the mark is cleared and the selection collapses on the cursor |
| Session.SetMarkTwice | main.ts:291-297 | two presses from the no-mark state give the no-mark state with the selection collapsed, which is the starting state when it already was |
| Commands.Step | main.ts:89-335 | every command keeps the state consistent, and motions change neither the text nor the mark |
| Commands.Run | main.ts:89-335 | any sequence of commands keeps every position inside the document |
| Commands.StepKeepsInStep | main.ts:408-429 | every command keeps the selection in step with the mark |
| Commands.RunKeepsInStep | main.ts:408-429 | any sequence of commands keeps the selection in step with the mark |
| Commands.MotionsFollowMark | main.ts:413-429 | while only motions run with a mark set, the mark and the text stay put, and after each motion the selection starts at the mark |
| Emacs.EmacsPlugin.constructor | main.ts:69 | the plugin starts with no mark, and the clipboard holds what the system clipboard holds |
| Emacs.EmacsPlugin.DisableSelection | main.ts:408-411 | the host calls leave the state `Session.DisableSelection` describes |
| Emacs.EmacsPlugin.UpdateSelectionIfNeeded | main.ts:423-429 | the host calls leave the state `Session.UpdateSelectionIfNeeded` describes |
| Emacs.EmacsPlugin.RunMotion | main.ts:148-165 | the callbacks of the motion commands move the cursor as `Session.Target` says |
| Emacs.EmacsPlugin.WithSelectionUpdate | main.ts:413-421 | the host calls leave the state `Session.WithSelectionUpdate` describes |
| Emacs.EmacsPlugin.WithDeleteInText | main.ts:431-440 | the host calls leave the state `Session.WithDeleteInText` describes |
| Emacs.EmacsPlugin.KillLine | main.ts:191-202 | the host calls leave the state `Session.KillLine` describes |
| Emacs.EmacsPlugin.DeleteByMotion | main.ts:205-239 | delete-char, kill-word and backward-kill-word drop the mark, then delete across their motion as `Session.WithDeleteInText` says |
| Emacs.EmacsPlugin.KillRingSave | main.ts:241-253 | the host calls leave the state `Session.KillRingSave` describes |
| Emacs.EmacsPlugin.KillRegion | main.ts:255-268 | the host calls leave the state `Session.KillRegion` describes |
| Emacs.EmacsPlugin.Yank | main.ts:270-286 | the host calls leave the state `Session.Yank` describes |
| Emacs.EmacsPlugin.SetMarkCommand | main.ts:291-297 | the host calls leave the state `Session.SetMarkCommand` describes |
| Emacs.EmacsPlugin.Execute | main.ts:89-335 | each command's callback, including keyboard-quit (main.ts:303-305) and recenter, leaves the state `Commands.Step` describes |

## Left out

- The plugin lifecycle: `onload`, command registration, the keydown
  handler that looks a chord's text up in the key map, `onunload` and
  console logging.
- `loadSettings`, `saveSettings` and the construction of the settings tab.
  Only the dictionary update made when a key is edited is modelled.
- `KeyPress.fromEvent`, which reads a browser keyboard event. A chord is
  built with the datatype's constructor.
- The system clipboard is a string field of the plugin. The source's writes
  are not awaited, and its read in yank is awaited. Here both take effect at
  once, and no other program changes the clipboard between commands.
- Host motions (`goRight`, `goWordLeft`, `goDown`, `goStart`, `goEnd` and the
  rest) are not computed. Each one's destination is a parameter `dest`, which
  the host clips into the document.
- Undo and redo are left out. The invariant that the mark lies inside the
  document relies on that, because the source never adjusts the mark when
  the text changes.
- Recenter only scrolls (`scrollIntoView`), so the model treats it as the
  identity on the editor state.
- Session.KillLine: the host's `deleteLine` is taken to be CodeMirror 6's,
  the editor Obsidian is built on. It removes the line with the break before
  it (after it, on the first line), so an empty last line below another line
  is removed and the cursor ends at the end of the line above. CodeMirror 5's
  `deleteLine` would instead leave an empty last line in place with the
  cursor on it.
- Host.Editor.ExecDeleteLine: CodeMirror 6 moves the cursor down by screen
  position. The model keeps the same column, clipped to the line. The plugin
  only calls `deleteLine` on an empty line, where the column is 0 either way.
- After `setLine` and `replaceRange`, the host's selection is taken to be the
  old anchor and head, clipped. The source always calls `setCursor` right
  after both, so this choice never shows in any command's result.
- In the source the mark belongs to the plugin and is shared by every open
  editor. The model has a single editor.
- Edits and cursor moves from outside the plugin's commands are left out:
  typing, mouse clicks, the host's own paste. These can leave the mark
  outside the document or the selection out of step with the mark. Every
  `Session` function requires `Consistent`, and every `Emacs` method requires
  `Valid`, so those states are excluded. `Commands.RunKeepsInStep` speaks
  only of sequences of the plugin's own commands.
- Line breaks other than "\n" are not modelled. `Buffer.Split` breaks
  inserted text only at "\n". The host also breaks at "\r\n" and "\r" and
  stores "\n". For a clipboard holding "\r", the lines yank produces and
  the text `Session.Yank` states differ from the host's.
- Columns and lengths count Dafny characters (Unicode scalar values). The
  source's `ch` and `.length` count UTF-16 code units. The two differ for
  characters outside the Basic Multilingual Plane.
- Clipboard failures are not modelled. In the source a rejected clipboard
  write still lets kill-region cut the text, and a rejected read aborts
  yank. In the model every clipboard access succeeds.
- Keymap.Settings.Rebind visits the entries in an arbitrary order. The
  result does not depend on the order, so the iteration order of
  `Object.entries` is not modelled.
- Session.KillLine: the clipboard is left untouched, because the source's
  kill-line never writes it. There is no kill ring, yank-pop, extension of
  a kill by repeated kills, or paragraph motion, since the source has none.
